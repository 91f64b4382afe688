/** The construction of an actiongraph, stage by stage, and what holds of every order it produces. */
module Planner {

  import opened Reachability
  import opened Actions
  import opened Sequences
  import opened KahnOrder
  import opened Contraction
  import opened Merging
  import opened Expansion
  import opened MountPaths
  import opened DeviceChanges
  import opened Layout
  import opened Dependencies
  import opened Priorities
  import opened PlanSafety
  import opened Actiongraphs

  ghost predicate Before(order: seq<Vertex>, u: Vertex, v: Vertex) {
    u in order && v in order && IndexOf(order, u) < IndexOf(order, v)
  }

  /** Outer recorded mounts come before inner ones, inner recorded unmounts before outer ones. */
  ghost predicate NestedInOrder(g: Graph, order: seq<Vertex>) {
    var mounts, unmounts := RecordedMounts(g.vertices, g.actions), RecordedUnmounts(g.vertices, g.actions);
    && (forall a, b :: IsAncestor(a, b) && a in mounts && b in mounts ==> Before(order, mounts[a], mounts[b]))
    && (forall a, b :: IsAncestor(a, b) && a in unmounts && b in unmounts ==> Before(order, unmounts[b], unmounts[a]))
  }

  /** Whatever comes before a swap mount is a swap mount or a prerequisite of one. */
  ghost predicate SwapComesFirst(es: set<Edge>, actions: map<Vertex, Action>, order: seq<Vertex>) {
    forall i, j :: 0 <= i < j < |order| && IsSwap(actions, order[j]) ==> LeadsToSwap(es, actions, order[i])
  }

  lemma ReachedIsBefore(g: Graph, vertices: seq<Vertex>, edges: seq<Edge>, actions: map<Vertex, Action>,
                        order: seq<Vertex>, u: Vertex, v: Vertex)
    requires Ordered(g, vertices, edges, actions, order)
    requires u in actions && v in actions && Reaches(g.es, u, v)
    ensures Before(order, u, v)
  {
    TopologicalRespectsReach(vertices, edges, order, u, v);
  }

  lemma MountsAreNested(req: Request, g: Graph, vertices: seq<Vertex>, edges: seq<Edge>,
                        actions: map<Vertex, Action>, order: seq<Vertex>)
    requires WellFormed(req) && Depended(req, g) && Ordered(g, vertices, edges, actions, order)
    requires LinksNearest(g.es, RecordedMounts(g.vertices, g.actions))
    requires LinksNearestBackward(g.es, RecordedUnmounts(g.vertices, g.actions))
    ensures NestedInOrder(g, order)
  {
    var mounts, unmounts := RecordedMounts(g.vertices, g.actions), RecordedUnmounts(g.vertices, g.actions);
    RecordedAreVertices(g.vertices, g.actions);
    forall u | u in g.actions && g.actions[u].kind.IsMountOrUnmount() ensures u in actions {
      MountsAreReal(req, g, u);
    }
    forall a, b | IsAncestor(a, b) && a in mounts && b in mounts ensures Before(order, mounts[a], mounts[b]) {
      LinksReachEveryDescendant(g.es, mounts, a, b);
      ReachedIsBefore(g, vertices, edges, actions, order, mounts[a], mounts[b]);
    }
    forall a, b | IsAncestor(a, b) && a in unmounts && b in unmounts ensures Before(order, unmounts[b], unmounts[a]) {
      LinksReachEveryAncestor(g.es, unmounts, a, b);
      ReachedIsBefore(g, vertices, edges, actions, order, unmounts[b], unmounts[a]);
    }
  }

  /**
   * Collecting the actions and merging duplicates; not defined exactly if some kind of duplicate occurs three
   * times.
   */
  method CollectActions(req: Request) returns (graph: Actiongraph, defined: bool)
    ensures fresh(graph) && graph.Valid() && graph.priorities == map[]
    ensures defined <==> AtMostTwo(ActionsOf(AllChains(req)))
    ensures defined ==> graph.CacheIsCurrent()
    ensures defined ==> graph.vertices == VerticesOf(req) && graph.actions == MergedActionsOf(req)
    ensures defined ==> Support(graph.edges) == Quotient(Support(EdgesOf(AllChains(req))), DuplicatesOf(req))
  {
    graph := AllActions(req);
    defined := graph.RemoveDuplicates();
    if defined {
      graph.SetSpecialActions();
    }
  }

  method AllActions(req: Request) returns (graph: Actiongraph)
    ensures fresh(graph) && graph.Built(AllChains(req)) && graph.NoSpecialActions() && graph.priorities == map[]
  {
    graph := new Actiongraph();
    graph.GetActions(req);
  }

  /** Collecting, merging and linking: the graph as the sync contraction finds it. */
  method BuildGraph(req: Request, external: seq<Edge>) returns (graph: Actiongraph, ok: Result<()>)
    ensures fresh(graph) && graph.Valid() && graph.priorities == map[]
    ensures ok == Err(Undefined) <==> !AtMostTwo(ActionsOf(AllChains(req)))
    ensures ok.Ok? <==> AtMostTwo(ActionsOf(AllChains(req))) && NothingMissing(req, GraphOf(req, external))
    ensures ok.Err? && ok.error != Undefined ==> ok.error != NotADag && IsCause(req, external, ok.error)
    ensures ok.Ok? ==> Holds(graph.vertices, graph.actions, graph.edges, GraphOf(req, external))
    ensures ok.Ok? ==> Depended(req, GraphOf(req, external))
  {
    var defined;
    graph, defined := CollectActions(req);
    if defined {
      ok := LinkGraph(graph, req, external);
    } else {
      ok := Err(Undefined);
    }
  }

  /** Adding all dependencies to the merged chains. */
  method LinkGraph(graph: Actiongraph, req: Request, external: seq<Edge>) returns (ok: Result<()>)
    requires graph.Valid() && graph.CacheIsCurrent() && AtMostTwo(ActionsOf(AllChains(req)))
    requires graph.vertices == VerticesOf(req) && graph.actions == MergedActionsOf(req)
    requires Support(graph.edges) == Quotient(Support(EdgesOf(AllChains(req))), DuplicatesOf(req))
    modifies graph`edges
    ensures graph.Valid()
    ensures ok.Ok? <==> NothingMissing(req, GraphOf(req, external))
    ensures ok.Err? ==> ok.error != Undefined && ok.error != NotADag && IsCause(req, external, ok.error)
    ensures ok.Ok? ==> Holds(graph.vertices, graph.actions, graph.edges, GraphOf(req, external))
    ensures ok.Ok? ==> Depended(req, GraphOf(req, external))
  {
    ghost var merged := graph.edges;
    ok := graph.AddDependencies(req, external);
    ghost var depended := graph.edges;
    if ok.Ok? {
      graph.AddMountDependencies();
      EdgesArePlanned(req, external, merged, depended, graph.edges);
      EdgesAreIncluded(req, external);
      GraphIsDepended(req, GraphOf(req, external), graph.edges);
    }
  }

  /** The first action with a problem has this one. */
  ghost predicate IsCause(req: Request, external: seq<Edge>, failure: Failure) {
    var g := GraphOf(req, external);
    exists i: nat :: IsFirstProblem(req, g.vertices, g.actions, i) &&
      failure == if MissesDevice(req, g.actions, g.vertices[i]) then DeviceNotFound else NoParentCreateAction
  }

  /** The vertices, their actions and the edges are those of g. */
  ghost predicate Holds(vertices: seq<Vertex>, actions: map<Vertex, Action>, edges: seq<Edge>, g: Graph) {
    g.vertices == vertices && g.actions == actions && g.es == Support(edges)
  }

  lemma EdgesArePlanned(req: Request, external: seq<Edge>, merged: seq<Edge>, depended: seq<Edge>, edges: seq<Edge>)
    requires Support(merged) == Quotient(Support(EdgesOf(AllChains(req))), DuplicatesOf(req))
    requires var vertices, actions := VerticesOf(req), MergedActionsOf(req);
      && (forall e :: e in depended <==>
            || e in merged || e in EdgesForAll(req, vertices, actions, vertices)
            || (e in external && e.source in vertices && e.target in vertices))
      && (forall e :: e in edges <==>
            || e in depended || IsMountLink(RecordedMounts(vertices, actions), e)
            || IsMountLink(RecordedUnmounts(vertices, actions), Edge(e.target, e.source)))
    ensures Support(edges) == PlanEdges(req, external)
  {
    var vertices, actions := VerticesOf(req), MergedActionsOf(req);
    forall e ensures e in Support(edges) <==> e in PlanEdges(req, external) {
      LinksAreLinks(RecordedMounts(vertices, actions), e);
      LinksAreLinks(RecordedUnmounts(vertices, actions), e);
      assert e in merged <==> e in Support(merged);
      assert e in Restrict(Support(external), Elems(vertices)) <==>
        e in external && e.source in vertices && e.target in vertices;
    }
  }

  /** The edge joins what has become of two consecutive actions of one chain. */
  ghost predicate IsMergedStep(req: Request, e: Edge) {
    exists step :: IsChainStep(AllChains(req), step)
      && e == Edge(RepOf(DuplicatesOf(req), step.source), RepOf(DuplicatesOf(req), step.target))
  }

  /** Which edges the graph of a request has, and that it has no others. */
  lemma PlanEdgesExactly(req: Request, external: seq<Edge>, e: Edge)
    ensures var vertices, actions := VerticesOf(req), MergedActionsOf(req);
      e in PlanEdges(req, external) <==>
        || IsMergedStep(req, e)
        || IsDependency(req, vertices, actions, e)
        || (e in external && e.source in vertices && e.target in vertices)
        || IsMountLink(RecordedMounts(vertices, actions), e)
        || IsMountLink(RecordedUnmounts(vertices, actions), Edge(e.target, e.source))
  {
    var vertices, actions := VerticesOf(req), MergedActionsOf(req);
    DependenciesExactly(req, vertices, actions, e);
    LinksAreLinks(RecordedMounts(vertices, actions), e);
    LinksAreLinks(RecordedUnmounts(vertices, actions), e);
    MergedStepsExactly(req, e);
  }

  lemma MergedStepsExactly(req: Request, e: Edge)
    ensures e in Quotient(Support(EdgesOf(AllChains(req))), DuplicatesOf(req)) <==> IsMergedStep(req, e)
  {
    forall step ensures step in Support(EdgesOf(AllChains(req))) <==> IsChainStep(AllChains(req), step) {
      EdgesExactly(AllChains(req), step);
    }
  }

  lemma DuplicatesAreMerged(req: Request)
    requires AtMostTwo(ActionsOf(AllChains(req)))
    ensures var rep := DuplicatesOf(req);
      forall x :: x in rep ==> Same(ActionsOf(AllChains(req)), rep[x], x) && rep[x] !in rep
  {
    var list, all, rep := Numbers(0, End(AllChains(req))), ActionsOf(AllChains(req)), DuplicatesOf(req);
    NumbersMembers(0, End(AllChains(req)));
    forall x | x in rep ensures Same(all, rep[x], x) && rep[x] !in rep {
      var a, b := MergedHasEarlier(list, all, x);
    }
  }

  lemma EdgesAreIncluded(req: Request, external: seq<Edge>)
    ensures var g := GraphOf(req, external);
      && Quotient(Support(EdgesOf(AllChains(req))), g.rep) <= g.es
      && Support(EdgesForAll(req, g.vertices, g.actions, g.vertices)) <= g.es
  {
  }

  lemma GraphIsDepended(req: Request, g: Graph, edges: seq<Edge>)
    requires AtMostTwo(ActionsOf(AllChains(req))) && NothingMissing(req, g)
    requires g.rep == DuplicatesOf(req) && g.actions == MergedActionsOf(req) && g.es == Support(edges)
    requires Quotient(Support(EdgesOf(AllChains(req))), g.rep) <= g.es
    requires Support(EdgesForAll(req, g.vertices, g.actions, g.vertices)) <= g.es
    requires forall v :: v in g.vertices <==> v in g.actions
    requires forall e :: e in edges ==> e.source in g.vertices && e.target in g.vertices
    ensures Depended(req, g)
  {
    DuplicatesAreMerged(req);
  }

  /**
   * Contracting the sync-only actions, setting priorities and sorting.  Succeeds exactly on acyclic graphs; a
   * cycle of sync-only actions is not found but leads to undefined behaviour.
   */
  method OrderGraph(graph: Actiongraph, ghost g: Graph) returns (r: Result<seq<Vertex>>)
    requires graph.Valid() && graph.priorities == map[]
    requires Holds(graph.vertices, graph.actions, graph.edges, g)
    modifies graph
    ensures graph.Valid()
    ensures r.Ok? <==> Acyclic(g.es)
    ensures r == Err(Undefined) <==> !NoCycleInside(g.es, Syncs(g.actions))
    ensures r == Err(NotADag) ==> exists v :: v in graph.vertices && Reaches(g.es, v, v)
    ensures r.Err? ==> r.error == Undefined || r.error == NotADag
    ensures r.Ok? ==> Ordered(g, graph.vertices, graph.edges, graph.actions, r.value)
    ensures r.Ok? ==> exists full :: IsFullOrder(g, full, r.value)
    ensures r.Ok? ==> IsGreedy(graph.vertices, graph.edges, graph.priorities, r.value)
    ensures r.Ok? ==> ExactPriorities(Support(graph.edges), graph.actions, graph.priorities)
  {
    ghost var edges := graph.edges;
    AcyclicMeansNoCycleInside(g.es, Syncs(g.actions));
    var defined := graph.RemoveOnlySyncs();
    if !defined {
      return Err(Undefined);
    }
    graph.SetPriorities();
    var order := graph.PrioritisedTopologicalSort();
    CyclesAreAmongVertices(graph.vertices, graph.edges, g.es);
    if order.None? {
      return Err(NotADag);
    }
    GraphIsOrdered(g, graph.vertices, graph.edges, graph.actions, order.value);
    var full := FullOrderExists(g, edges, order.value);
    r := Ok(order.value);
  }

  lemma AcyclicMeansNoCycleInside(es: set<Edge>, vs: set<Vertex>)
    ensures Acyclic(es) ==> NoCycleInside(es, vs)
  {
    forall v | Reaches(Restrict(es, vs), v, v) ensures Reaches(es, v, v) {
      ReachesMono(Restrict(es, vs), es, v, v);
    }
  }

  /** After the contraction, every topological order is an order of the plan. */
  lemma GraphIsOrdered(g: Graph, vertices: seq<Vertex>, edges: seq<Edge>, actions: map<Vertex, Action>,
                       order: seq<Vertex>)
    requires actions == g.actions - Syncs(g.actions) && (forall v :: v in vertices <==> v in actions)
    requires forall e :: e in edges ==> e.source in vertices && e.target in vertices
    requires SameReach(vertices, Support(edges), g.es) && IsTopological(vertices, edges, order)
    ensures Ordered(g, vertices, edges, actions, order)
  {
  }

  /** Every order of the contracted graph is what remains of an order of the whole graph. */
  lemma FullOrderExists(g: Graph, edges: seq<Edge>, order: seq<Vertex>) returns (full: seq<Vertex>)
    requires g.es == Support(edges) && Distinct(g.vertices) && forall v :: v in g.vertices <==> v in g.actions
    requires Within(g.es, Elems(g.vertices)) && NoCycleInside(g.es, Syncs(g.actions))
    requires var left := Survivors(g.vertices, Syncs(g.actions));
      IsTopological(left, ContractAll(edges, SyncList(g.vertices, g.actions)), order)
    ensures IsFullOrder(g, full, order) && Acyclic(g.es)
  {
    var list := SyncList(g.vertices, g.actions);
    SyncListMembers(g.vertices, g.actions);
    SurvivorsMembers(g.vertices, Syncs(g.actions));
    assert Elems(list) == Syncs(g.actions);
    NeverLoopsExactly(edges, list);
    forall v ensures v in Elems(order) <==> v in Elems(g.vertices) - Elems(list) {
      assert v in Elems(order) <==> v in Elems(Survivors(g.vertices, Syncs(g.actions)));
    }
    TopologicalIsLinear(Survivors(g.vertices, Syncs(g.actions)), ContractAll(edges, list), order);
    full := PutAllBack(edges, list, order, Elems(g.vertices));
    LinearMeansAcyclic(g.es, full);
  }

  lemma TopologicalIsLinear(vertices: seq<Vertex>, edges: seq<Edge>, order: seq<Vertex>)
    requires IsTopological(vertices, edges, order)
    ensures Linear(Support(edges), order)
  {
    forall e, k | e in Support(edges) && 0 <= k < |order| && e.target == order[k] ensures e.source in order[..k] {
      assert Ready(edges, Elems(order[..k]), order[k]);
    }
  }

  lemma CyclesAreAmongVertices(vertices: seq<Vertex>, edges: seq<Edge>, es: set<Edge>)
    requires forall e :: e in edges ==> e.source in vertices && e.target in vertices
    requires SameReach(vertices, Support(edges), es)
    ensures !Acyclic(Support(edges)) <==> exists v :: v in vertices && Reaches(es, v, v)
  {
    forall v | Reaches(Support(edges), v, v) ensures v in vertices {
      var n: nat :| Walk(Support(edges), n, v, v);
      WalkEnds(Support(edges), Elems(vertices), n, v, v);
    }
  }

  /** The order has all the actions, every step is safe, and the run ends where the actions say. */
  ghost predicate SafeRun(req: Request, actions: map<Vertex, Action>, order: seq<Vertex>) {
    && (forall v :: v in order <==> v in actions)
    && (forall i :: 0 <= i < |order| ==> SafeStep(req, actions, order, i))
    && RunsTo(req, actions, order)
  }

  /** If the request provides for staging, no Create or Mount of the order runs while a parent is missing. */
  ghost predicate NeverMissesParents(req: Request, g: Graph, full: seq<Vertex>)
    requires forall v :: v in full ==> v in g.actions
  {
    Provides(req) ==> forall i :: 0 <= i < |full| ==> ParentsPresent(req, g.actions, full, i)
  }

  /**
   * Running the order, with the effects of sync-only actions at their places, ends in staging exactly if the
   * request provides for it.
   */
  ghost predicate ReachesStaging(req: Request, g: Graph, full: seq<Vertex>)
    requires forall v :: v in full ==> v in g.actions
  {
    Run(req, g.actions, full, Elems(req.lhs)) == Elems(req.rhs) <==> Provides(req)
  }

  ghost predicate SafeFullRun(req: Request, g: Graph, full: seq<Vertex>) {
    SafeRun(req, g.actions, full) && ReachesStaging(req, g, full) && NeverMissesParents(req, g, full)
  }

  /**
   * Everything promised about running an order: the run of the real actions alone, and the run in which the
   * sync-only actions take effect as well, wherever they are allowed to.
   */
  ghost predicate SafePlan(req: Request, external: seq<Edge>, g: Graph, edges: seq<Edge>, actions: map<Vertex, Action>,
                           order: seq<Vertex>)
  {
    && SafeRun(req, actions, order)
    && CarriesAll(req, actions, order)
    && RespectsExternal(external, actions, order)
    && (exists full :: IsFullOrder(g, full, order))
    && (forall full :: IsFullOrder(g, full, order) ==> SafeFullRun(req, g, full))
    && (forall i, j :: 0 <= i < j < |order| ==> !Same(actions, order[i], order[j]))
    && ChainsInOrder(req, g, actions, order)
    && SwapComesFirst(Support(edges), actions, order)
    && NestedInOrder(g, order)
  }

  /** The same action, or a duplicate of it: a mount, or an unmount, of the same device. */
  predicate StandsFor(now: Action, was: Action) {
    now == was ||
    (now.sid == was.sid && ((now.kind.Mount? && was.kind.Mount?) || (now.kind.Unmount? && was.kind.Unmount?)))
  }

  ghost predicate IsCarried(actions: map<Vertex, Action>, order: seq<Vertex>, action: Action) {
    exists v :: v in order && v in actions && StandsFor(actions[v], action)
  }

  /** Whatever the request consists of is done, unless it is sync-only, and nothing else is done. */
  ghost predicate CarriesAll(req: Request, actions: map<Vertex, Action>, order: seq<Vertex>) {
    && (forall action :: Provided(req, action) && !action.onlySync ==> IsCarried(actions, order, action))
    && (forall v :: v in order ==> v in actions && Provided(req, actions[v]) && !actions[v].onlySync)
  }

  /** What other parts demand of the order is met. */
  ghost predicate RespectsExternal(external: seq<Edge>, actions: map<Vertex, Action>, order: seq<Vertex>) {
    forall e :: e in external && e.source in actions && e.target in actions ==> Before(order, e.source, e.target)
  }

  lemma ExternalIsRespected(req: Request, external: seq<Edge>, g: Graph, vertices: seq<Vertex>, edges: seq<Edge>,
                            actions: map<Vertex, Action>, order: seq<Vertex>)
    requires Ordered(g, vertices, edges, actions, order) && (forall v :: v in g.vertices <==> v in g.actions)
    requires Restrict(Support(external), Elems(g.vertices)) <= g.es
    ensures RespectsExternal(external, actions, order)
  {
    forall e | e in external && e.source in actions && e.target in actions ensures Before(order, e.source, e.target) {
      assert e in Restrict(Support(external), Elems(g.vertices));
      StepReaches(g.es, e.source, e.target);
      ReachedIsBefore(g, vertices, edges, actions, order, e.source, e.target);
    }
  }

  /** The vertex that an action is represented by after merging. */
  lemma RepresentedBy(req: Request, g: Graph, v: Vertex)
    requires WellFormed(req) && Depended(req, g) && v in ActionsOf(AllChains(req))
    ensures RepOf(g.rep, v) in g.actions
    ensures var now, was := g.actions[RepOf(g.rep, v)], ActionsOf(AllChains(req))[v];
      StandsFor(now, was) && (now.onlySync <==> was.onlySync)
  {
    if v in g.rep {
      assert Same(ActionsOf(AllChains(req)), g.rep[v], v);
      MountsAreReal(req, g, g.rep[v]);
      var k, i := FindPlace(AllChains(req), v);
      ActionAt(AllChains(req), k, i);
      assert GoodPlace(req, AllChains(req), k, i);
    }
  }

  lemma EverythingIsCarried(req: Request, g: Graph, actions: map<Vertex, Action>, order: seq<Vertex>)
    requires WellFormed(req) && Depended(req, g)
    requires actions == g.actions - Syncs(g.actions) && forall v :: v in order <==> v in actions
    ensures CarriesAll(req, actions, order)
  {
    var all := ActionsOf(AllChains(req));
    forall action | Provided(req, action) && !action.onlySync ensures IsCarried(actions, order, action) {
      ProvidedAreLaid(req, action);
      var v :| v in all && all[v] == action;
      RepresentedBy(req, g, v);
      assert RepOf(g.rep, v) in order;
    }
    forall v | v in order ensures Provided(req, actions[v]) && !actions[v].onlySync {
      assert v in all && all[v] == actions[v];
      ProvidedAreLaid(req, actions[v]);
    }
  }

  lemma RespectingRunIsSafe(req: Request, g: Graph, actions: map<Vertex, Action>, order: seq<Vertex>)
    requires WellFormed(req) && Depended(req, g) && Respects(g, actions, order)
    ensures SafeRun(req, actions, order)
  {
    forall i | 0 <= i < |order| ensures SafeStep(req, actions, order, i) {
      EveryStepIsSafe(req, g, actions, order, i);
    }
    WholeRun(req, g, actions, order);
  }

  lemma FullOrderIsSafe(req: Request, g: Graph, full: seq<Vertex>, order: seq<Vertex>)
    requires WellFormed(req) && Depended(req, g) && IsFullOrder(g, full, order)
    ensures SafeFullRun(req, g, full)
  {
    FullRespects(req, g, full, order);
    RespectingRunIsSafe(req, g, g.actions, full);
    WholeRunReachesStaging(req, g, g.actions, full);
    MergingKeepsEffects(req, g);
    CompleteMeansProvided(req);
    if Complete(req, g.actions) {
      forall i | 0 <= i < |full| ensures ParentsPresent(req, g.actions, full, i) {
        EveryParentIsPresent(req, g, full, i);
      }
    }
  }

  /** Of every chain the actions that are left, or what they have been merged into, come in chain order. */
  ghost predicate ChainsInOrder(req: Request, g: Graph, actions: map<Vertex, Action>, order: seq<Vertex>) {
    forall k, i, j :: 0 <= k < |AllChains(req)| && 0 <= i < j < AllChains(req)[k].Size() ==>
      InChainOrder(g, actions, order, VertexAt(AllChains(req), k, i), VertexAt(AllChains(req), k, j))
  }

  ghost predicate InChainOrder(g: Graph, actions: map<Vertex, Action>, order: seq<Vertex>, u: Vertex, v: Vertex) {
    RepOf(g.rep, u) in actions && RepOf(g.rep, v) in actions ==> Before(order, RepOf(g.rep, u), RepOf(g.rep, v))
  }

  lemma ChainsAreInOrder(req: Request, g: Graph, vertices: seq<Vertex>, edges: seq<Edge>, actions: map<Vertex, Action>,
                         order: seq<Vertex>)
    requires Depended(req, g) && Ordered(g, vertices, edges, actions, order)
    ensures ChainsInOrder(req, g, actions, order)
  {
    var chains := AllChains(req);
    forall k, i, j | 0 <= k < |chains| && 0 <= i < j < chains[k].Size()
      ensures InChainOrder(g, actions, order, VertexAt(chains, k, i), VertexAt(chains, k, j))
    {
      var u, v, es := VertexAt(chains, k, i), VertexAt(chains, k, j), Support(EdgesOf(chains));
      ChainReaches(chains, k, i, j);
      var n: nat :| Walk(es, n, u, v);
      QuotientKeepsWalk(es, g.rep, n, u, v);
      ReachesMono(Quotient(es, g.rep), g.es, RepOf(g.rep, u), RepOf(g.rep, v));
      if RepOf(g.rep, u) in actions && RepOf(g.rep, v) in actions {
        ReachedIsBefore(g, vertices, edges, actions, order, RepOf(g.rep, u), RepOf(g.rep, v));
      }
    }
  }

  lemma OrderHasNoTwoSame(g: Graph, vertices: seq<Vertex>, edges: seq<Edge>, actions: map<Vertex, Action>,
                          order: seq<Vertex>)
    requires Ordered(g, vertices, edges, actions, order) && NoTwoSame(g)
    requires forall v :: v in g.vertices <==> v in g.actions
    ensures forall i, j :: 0 <= i < j < |order| ==> !Same(actions, order[i], order[j])
  {
    forall i, j | 0 <= i < j < |order| ensures !Same(actions, order[i], order[j]) {
      assert order[i] != order[j] && order[i] in Elems(order) && order[j] in Elems(order);
      assert Same(actions, order[i], order[j]) ==> Same(g.actions, order[i], order[j]);
    }
  }

  lemma OrdersAreSafe(req: Request, external: seq<Edge>, g: Graph, vertices: seq<Vertex>, edges: seq<Edge>,
                      actions: map<Vertex, Action>, priorities: map<Vertex, int>, order: seq<Vertex>)
    requires WellFormed(req) && Depended(req, g) && Ordered(g, vertices, edges, actions, order)
    requires exists full :: IsFullOrder(g, full, order)
    requires IsGreedy(vertices, edges, priorities, order) && ExactPriorities(Support(edges), actions, priorities)
    requires LinksNearest(g.es, RecordedMounts(g.vertices, g.actions))
    requires LinksNearestBackward(g.es, RecordedUnmounts(g.vertices, g.actions))
    requires NoTwoSame(g) && Restrict(Support(external), Elems(g.vertices)) <= g.es
    ensures SafePlan(req, external, g, edges, actions, order)
  {
    OrderedRespects(g, vertices, edges, actions, order);
    RespectingRunIsSafe(req, g, actions, order);
    EverythingIsCarried(req, g, actions, order);
    ExternalIsRespected(req, external, g, vertices, edges, actions, order);
    forall full | IsFullOrder(g, full, order) ensures SafeFullRun(req, g, full) {
      FullOrderIsSafe(req, g, full, order);
    }
    forall i, j | 0 <= i < j < |order| && IsSwap(actions, order[j])
      ensures LeadsToSwap(Support(edges), actions, order[i])
    {
      SwapFirst(vertices, edges, actions, priorities, order, i, j);
    }
    OrderHasNoTwoSame(g, vertices, edges, actions, order);
    ChainsAreInOrder(req, g, vertices, edges, actions, order);
    MountsAreNested(req, g, vertices, edges, actions, order);
  }

  /** The planned edges link every recorded mount from, and every unmount to, its nearest recorded ancestor. */
  lemma PlannedLinks(req: Request, external: seq<Edge>)
    ensures var g := GraphOf(req, external);
      && LinksNearest(g.es, RecordedMounts(g.vertices, g.actions))
      && LinksNearestBackward(g.es, RecordedUnmounts(g.vertices, g.actions))
      && Restrict(Support(external), Elems(g.vertices)) <= g.es
  {
  }

  /**
   * The whole construction: an order of the actions in which running them is safe, exactly if no kind of
   * duplicate occurs three times, no action misses its device or a parent's action, and there is no cycle.
   */
  method Calculate(req: Request, external: seq<Edge>) returns (graph: Actiongraph, r: Result<seq<Vertex>>)
    requires WellFormed(req)
    ensures fresh(graph) && graph.Valid()
    ensures var g := GraphOf(req, external);
      && (r.Ok? <==> AtMostTwo(ActionsOf(AllChains(req))) && NothingMissing(req, g) && Acyclic(g.es))
      && (r == Err(Undefined) <==>
            !AtMostTwo(ActionsOf(AllChains(req))) || (NothingMissing(req, g) && !NoCycleInside(g.es, Syncs(g.actions))))
      && (r == Err(NotADag) <==>
            && AtMostTwo(ActionsOf(AllChains(req))) && NothingMissing(req, g)
            && NoCycleInside(g.es, Syncs(g.actions)) && !Acyclic(g.es))
    ensures r == Err(NoParentCreateAction) || r == Err(DeviceNotFound) ==> IsCause(req, external, r.error)
    ensures r.Ok? ==> Ordered(GraphOf(req, external), graph.vertices, graph.edges, graph.actions, r.value)
    ensures r.Ok? ==> SafePlan(req, external, GraphOf(req, external), graph.edges, graph.actions, r.value)
  {
    ghost var g := GraphOf(req, external);
    var ok;
    graph, ok := BuildGraph(req, external);
    if ok.Err? {
      return graph, Err(ok.error);
    }
    r := OrderGraph(graph, g);
    if r.Ok? {
      PlannedLinks(req, external);
      GraphHasNoTwoSame(req, external);
      OrdersAreSafe(req, external, g, graph.vertices, graph.edges, graph.actions, graph.priorities, r.value);
    }
  }
}
