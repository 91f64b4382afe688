/** What running a planned order does to the devices that exist, and why it is safe. */
module PlanSafety {

  import opened Reachability
  import opened Actions
  import opened Sequences
  import opened KahnOrder
  import opened Contraction
  import opened Merging
  import opened MountPaths
  import opened Expansion
  import opened DeviceChanges
  import opened Layout
  import opened Dependencies

  // ----- running an order

  predicate Creates(action: Action, s: Sid) {
    action.kind.Create? && action.affectsDevice && action.sid == s
  }

  predicate Deletes(action: Action, s: Sid) {
    action.kind.Delete? && action.affectsDevice && action.sid == s
  }

  ghost predicate HasCreate(actions: map<Vertex, Action>, s: Sid) {
    exists v :: v in actions && Creates(actions[v], s)
  }

  ghost predicate HasDelete(actions: map<Vertex, Action>, s: Sid) {
    exists v :: v in actions && Deletes(actions[v], s)
  }

  /** A Create or Mount of a device that LHS does not have makes it exist. */
  predicate Adds(req: Request, action: Action, s: Sid) {
    action.affectsDevice && action.kind.IsCreate() && action.sid == s && s !in req.lhs
  }

  /** A Delete or Unmount of a device that RHS does not have makes it vanish. */
  predicate Removes(req: Request, action: Action, s: Sid) {
    action.affectsDevice && action.kind.IsDelete() && action.sid == s && s !in req.rhs
  }

  ghost predicate HasAdder(req: Request, actions: map<Vertex, Action>, s: Sid) {
    exists v :: v in actions && Adds(req, actions[v], s)
  }

  ghost predicate HasRemover(req: Request, actions: map<Vertex, Action>, s: Sid) {
    exists v :: v in actions && Removes(req, actions[v], s)
  }

  /** The devices that exist after one more action. */
  function Step(req: Request, action: Action, present: set<Sid>): set<Sid> {
    if Adds(req, action, action.sid) then present + {action.sid}
    else if Removes(req, action, action.sid) then present - {action.sid}
    else present
  }

  /** The devices that exist after running the actions of the order, starting from present. */
  function Run(req: Request, actions: map<Vertex, Action>, order: seq<Vertex>, present: set<Sid>): set<Sid>
    requires forall v :: v in order ==> v in actions
  {
    if order == [] then present
    else Step(req, actions[order[|order| - 1]], Run(req, actions, order[..|order| - 1], present))
  }

  ghost predicate AddedIn(req: Request, actions: map<Vertex, Action>, order: seq<Vertex>, s: Sid)
    requires forall v :: v in order ==> v in actions
  {
    exists v :: v in order && Adds(req, actions[v], s)
  }

  ghost predicate RemovedIn(req: Request, actions: map<Vertex, Action>, order: seq<Vertex>, s: Sid)
    requires forall v :: v in order ==> v in actions
  {
    exists v :: v in order && Removes(req, actions[v], s)
  }

  /** A device exists if it was there and has not been removed, or has been added. */
  lemma {:induction false} RunMembers(req: Request, actions: map<Vertex, Action>, order: seq<Vertex>,
                                      present: set<Sid>, s: Sid)
    requires forall v :: v in order ==> v in actions
    requires !(HasAdder(req, actions, s) && HasRemover(req, actions, s))
    ensures s in Run(req, actions, order, present) <==>
            (s in present && !RemovedIn(req, actions, order, s)) || AddedIn(req, actions, order, s)
  {
    if order != [] {
      var front, last := order[..|order| - 1], order[|order| - 1];
      assert order == front + [last];
      RunMembers(req, actions, front, present, s);
    }
  }

  // ----- what the planner may assume about the chains

  /** Chain k is the only one with actions of the device of its i-th action, and touches no other device or mount. */
  ghost predicate OwnChain(chains: seq<Chain>, k: nat, i: nat)
    requires k < |chains| && i < chains[k].Size()
  {
    && chains[k].Chain? && chains[k].lastAt < chains[k].Size()
    && (forall j :: 0 <= j < chains[k].Size() ==> OwnAction(chains[k].At(j), chains[k].At(i).sid))
    && (forall k', j :: 0 <= k' < |chains| && k' != k && 0 <= j < chains[k'].Size() ==>
          !(chains[k'].At(j).affectsDevice && chains[k'].At(j).sid == chains[k].At(i).sid))
  }

  predicate OwnAction(action: Action, s: Sid) {
    action.affectsDevice && action.sid == s && !action.kind.IsMountOrUnmount()
  }

  ghost predicate GoodPlace(req: Request, chains: seq<Chain>, k: nat, i: nat)
    requires k < |chains| && i < chains[k].Size()
  {
    var action := chains[k].At(i);
    && (action.affectsDevice && action.kind.Create? ==>
          action.sid in req.rhs && action.sid !in req.lhs && OwnChain(chains, k, i) && i <= chains[k].lastAt)
    && (action.affectsDevice && action.kind.Delete? ==>
          action.sid in req.lhs && action.sid !in req.rhs && OwnChain(chains, k, i) && i == chains[k].lastAt)
    && (action.kind.IsMountOrUnmount() ==> action.affectsDevice && !action.onlySync)
  }

  /**
   * Created devices have one chain with `last` not before the Create; deleted devices have one chain with
   * `last` at the Delete; the views of the devicegraphs are consistent; what is mounted, a mount point, is
   * nobody's parent.
   */
  ghost predicate WellFormed(req: Request) {
    && (forall k, i :: 0 <= k < |AllChains(req)| && 0 <= i < AllChains(req)[k].Size() ==>
          GoodPlace(req, AllChains(req), k, i))
    && (forall s, p :: p in req.ParentsInRhs(s) ==> p in req.rhs)
    && (forall p, c :: c in req.ChildrenInLhs(p) <==> p in req.ParentsInLhs(c))
    && (forall s, p :: p in req.ParentsInRhs(s) ==> !IsMounted(ActionsOf(AllChains(req)), p))
  }

  ghost predicate IsMounted(actions: map<Vertex, Action>, s: Sid) {
    exists v :: v in actions && actions[v].kind.Mount? && actions[v].sid == s
  }

  /** The graph at the dependency stage: what was merged into what, the vertices, their actions, the edge relation. */
  datatype Graph = Graph(rep: map<Vertex, Vertex>, vertices: seq<Vertex>, actions: map<Vertex, Action>, es: set<Edge>)

  /** The chains with duplicates merged, plus at least the computed edges. */
  ghost predicate Depended(req: Request, g: Graph) {
    && (forall x :: x in g.rep ==> Same(ActionsOf(AllChains(req)), g.rep[x], x) && g.rep[x] !in g.rep)
    && g.actions == ActionsOf(AllChains(req)) - g.rep.Keys
    && (forall v :: v in g.vertices <==> v in g.actions)
    && Quotient(Support(EdgesOf(AllChains(req))), g.rep) <= g.es
    && Support(EdgesForAll(req, g.vertices, g.actions, g.vertices)) <= g.es
    && Within(g.es, Elems(g.vertices))
    && NothingMissing(req, g)
  }

  /** Every action finds its device, and every new parent has an action to wait for. */
  ghost predicate NothingMissing(req: Request, g: Graph) {
    forall v :: v in g.vertices ==> !HasProblem(req, g.vertices, g.actions, v)
  }

  // ----- the graph of a request

  /** What is merged into what. */
  ghost function DuplicatesOf(req: Request): map<Vertex, Vertex> {
    Merged(Numbers(0, End(AllChains(req))), ActionsOf(AllChains(req)))
  }

  ghost function VerticesOf(req: Request): seq<Vertex> {
    Survivors(Numbers(0, End(AllChains(req))), DuplicatesOf(req).Keys)
  }

  ghost function MergedActionsOf(req: Request): map<Vertex, Action> {
    ActionsOf(AllChains(req)) - DuplicatesOf(req).Keys
  }

  /** The chains, the edges for creates and deletes, those of other parts, and the links between mounts. */
  ghost function PlanEdges(req: Request, external: seq<Edge>): set<Edge> {
    var vertices, actions := VerticesOf(req), MergedActionsOf(req);
    Quotient(Support(EdgesOf(AllChains(req))), DuplicatesOf(req))
    + Support(EdgesForAll(req, vertices, actions, vertices))
    + Restrict(Support(external), Elems(vertices))
    + MountLinks(RecordedMounts(vertices, actions))
    + UnmountLinks(RecordedUnmounts(vertices, actions))
  }

  /** The graph that a request and the edges of other parts determine. */
  ghost function GraphOf(req: Request, external: seq<Edge>): Graph {
    Graph(DuplicatesOf(req), VerticesOf(req), MergedActionsOf(req), PlanEdges(req, external))
  }

  /** No two actions mount, or unmount, the same device. */
  ghost predicate NoTwoSame(g: Graph) {
    forall u, v :: u in g.vertices && v in g.vertices && u != v ==> !Same(g.actions, u, v)
  }

  lemma GraphHasNoTwoSame(req: Request, external: seq<Edge>)
    requires AtMostTwo(ActionsOf(AllChains(req)))
    ensures NoTwoSame(GraphOf(req, external))
  {
    var g := GraphOf(req, external);
    NumbersMembers(0, End(AllChains(req)));
    SurvivorsDiffer(Numbers(0, End(AllChains(req))), ActionsOf(AllChains(req)), g.vertices, g.actions);
  }

  lemma SurvivorsDiffer(list: seq<Vertex>, all: map<Vertex, Action>, vertices: seq<Vertex>,
                        actions: map<Vertex, Action>)
    requires Distinct(list) && AtMostTwo(all)
    requires vertices == Survivors(list, Merged(list, all).Keys) && actions == all - Merged(list, all).Keys
    ensures forall u, v :: u in vertices && v in vertices && u != v ==> !Same(actions, u, v)
  {
    OneOfEachSurvives(list, all);
    forall u, v | u in vertices && v in vertices && u != v ensures !Same(actions, u, v) {
      assert Same(actions, u, v) ==> Same(all, u, v);
    }
  }

  // ----- the chain of a created or deleted device

  lemma PlaceOf(req: Request, g: Graph, v: Vertex)
    returns (k: nat, i: nat)
    requires WellFormed(req) && Depended(req, g) && v in g.actions
    ensures k < |AllChains(req)| && i < AllChains(req)[k].Size() && v == VertexAt(AllChains(req), k, i)
    ensures g.actions[v] == AllChains(req)[k].At(i)
    ensures GoodPlace(req, AllChains(req), k, i)
  {
    k, i := FindPlace(AllChains(req), v);
    ActionAt(AllChains(req), k, i);
  }

  /** The chain of a created or deleted device is still there, vertex by vertex and edge by edge. */
  lemma OwnChainIntact(req: Request, g: Graph,
                       k: nat, i: nat, j: nat)
    requires WellFormed(req) && Depended(req, g)
    requires k < |AllChains(req)| && i < AllChains(req)[k].Size() && j < AllChains(req)[k].Size()
    requires OwnChain(AllChains(req), k, i)
    ensures VertexAt(AllChains(req), k, j) in g.actions
    ensures g.actions[VertexAt(AllChains(req), k, j)] == AllChains(req)[k].At(j)
  {
    var chains := AllChains(req);
    ActionAt(chains, k, j);
    assert OwnAction(chains[k].At(j), chains[k].At(i).sid);
  }

  lemma OwnChainReaches(req: Request, g: Graph,
                        k: nat, i: nat, a: nat, b: nat)
    requires WellFormed(req) && Depended(req, g)
    requires k < |AllChains(req)| && i < AllChains(req)[k].Size() && a < b < AllChains(req)[k].Size()
    requires OwnChain(AllChains(req), k, i)
    ensures Reaches(g.es, VertexAt(AllChains(req), k, a), VertexAt(AllChains(req), k, b))
  {
    var chains := AllChains(req);
    var u, v := VertexAt(chains, k, a), VertexAt(chains, k, b);
    ChainReaches(chains, k, a, b);
    OwnChainIntact(req, g, k, i, a);
    OwnChainIntact(req, g, k, i, b);
    KeptReaches(req, g, u, v);
  }

  /** The only last action of such a device is the one its chain marks. */
  lemma LastOfOwnChain(req: Request, g: Graph,
                       k: nat, i: nat)
    requires WellFormed(req) && Depended(req, g)
    requires k < |AllChains(req)| && i < AllChains(req)[k].Size() && OwnChain(AllChains(req), k, i)
    ensures var list := Lasts(g.vertices, g.actions, AllChains(req)[k].At(i).sid);
      list != [] && list[0] == VertexAt(AllChains(req), k, AllChains(req)[k].lastAt)
  {
    var chains := AllChains(req);
    var s, at := chains[k].At(i).sid, chains[k].lastAt;
    var list := Lasts(g.vertices, g.actions, s);
    var last := VertexAt(chains, k, at);
    OwnChainIntact(req, g, k, i, at);
    assert OwnAction(chains[k].At(at), s);
    WithSidMembers(g.vertices, g.actions, s, last);
    OnlyLastsMembers(WithSid(g.vertices, g.actions, s), g.actions, last);
    var v := list[0];
    assert v in list;
    OnlyLastsMembers(WithSid(g.vertices, g.actions, s), g.actions, v);
    WithSidMembers(g.vertices, g.actions, s, v);
    var k', j := PlaceOf(req, g, v);
    assert k' == k;
    assert chains[k].At(j).last;
  }

  // ----- the three orderings

  /** u is an action of the chain that creates p, up to the one marked as last. */
  ghost predicate Prepares(req: Request, u: Vertex, p: Sid) {
    exists k, j :: IsPreparation(AllChains(req), k, j, p, u)
  }

  ghost predicate IsPreparation(chains: seq<Chain>, k: int, j: int, p: Sid, u: Vertex) {
    && 0 <= k < |chains| && chains[k].Chain? && 0 <= j < chains[k].Size() && j <= chains[k].lastAt
    && u == VertexAt(chains, k, j)
    && exists i :: 0 <= i < chains[k].Size() && Creates(chains[k].At(i), p)
  }

  lemma CreatePrepares(req: Request, g: Graph, u: Vertex, p: Sid)
    requires WellFormed(req) && Depended(req, g) && u in g.actions && Creates(g.actions[u], p)
    ensures Prepares(req, u, p)
  {
    var k, i := PlaceOf(req, g, u);
    assert Creates(AllChains(req)[k].At(i), p);
    assert IsPreparation(AllChains(req), k, i, p, u);
  }

  lemma DependencyReaches(req: Request, g: Graph, u: Vertex, v: Vertex)
    requires Depended(req, g) && IsDependency(req, g.vertices, g.actions, Edge(u, v))
    ensures Reaches(g.es, u, v)
  {
    DependenciesExactly(req, g.vertices, g.actions, Edge(u, v));
    assert Edge(u, v) in Support(EdgesForAll(req, g.vertices, g.actions, g.vertices));
    StepReaches(g.es, u, v);
  }

  /** The Create or Mount of a child waits for all a new parent's chain does up to its last action. */
  lemma PreparedBeforeChild(req: Request, g: Graph, u: Vertex, v: Vertex, p: Sid)
    requires WellFormed(req) && Depended(req, g)
    requires Prepares(req, u, p) && WaitsFor(req, g, v, p)
    ensures Reaches(g.es, u, v)
  {
    var chains := AllChains(req);
    var k, j :| IsPreparation(chains, k, j, p, u);
    var i :| 0 <= i < chains[k].Size() && Creates(chains[k].At(i), p);
    assert GoodPlace(req, chains, k, i);
    var last := VertexAt(chains, k, chains[k].lastAt);
    LastOfOwnChain(req, g, k, i);
    FrontOfLasts(g.vertices, g.actions, p, last);
    assert IsCreateDependency(req, g.vertices, g.actions, Edge(last, v));
    DependencyReaches(req, g, last, v);
    if j < chains[k].lastAt {
      OwnChainReaches(req, g, k, i, j, chains[k].lastAt);
      ReachesTrans(g.es, u, last, v);
    }
  }

  /** In particular for the parent's Create. */
  lemma CreateBeforeChild(req: Request, g: Graph, u: Vertex, v: Vertex, p: Sid)
    requires WellFormed(req) && Depended(req, g)
    requires u in g.actions && Creates(g.actions[u], p) && WaitsFor(req, g, v, p)
    ensures Reaches(g.es, u, v)
  {
    CreatePrepares(req, g, u, p);
    PreparedBeforeChild(req, g, u, v, p);
  }

  /** w belongs to a chain that starts with an action of p other than mounting or unmounting. */
  ghost predicate Uses(req: Request, w: Vertex, p: Sid) {
    exists k, j :: IsUse(AllChains(req), k, j, p, w)
  }

  ghost predicate IsUse(chains: seq<Chain>, k: int, j: int, p: Sid, w: Vertex) {
    && 0 <= k < |chains| && chains[k].Chain? && 0 <= j < chains[k].Size() && w == VertexAt(chains, k, j)
    && OwnAction(chains[k].At(0), p)
  }

  /** u is the Delete or Unmount of a child of p. */
  predicate EndsChild(req: Request, actions: map<Vertex, Action>, u: Vertex, p: Sid) {
    && u in actions && actions[u].kind.IsDelete() && actions[u].affectsDevice
    && actions[u].sid in req.ChildrenInLhs(p)
  }

  /** What is no mount and no unmount is never merged away. */
  lemma PlainIsKept(req: Request, g: Graph, k: nat, i: nat)
    requires Depended(req, g)
    requires k < |AllChains(req)| && i < AllChains(req)[k].Size()
    requires !AllChains(req)[k].At(i).kind.IsMountOrUnmount()
    ensures var v := VertexAt(AllChains(req), k, i); v in g.actions && g.actions[v] == AllChains(req)[k].At(i)
  {
    ActionAt(AllChains(req), k, i);
  }

  lemma DeleteBeforeFirst(req: Request, g: Graph, u: Vertex, k: nat, p: Sid)
    requires WellFormed(req) && Depended(req, g) && EndsChild(req, g.actions, u, p)
    requires k < |AllChains(req)| && IsUse(AllChains(req), k, 0, p, VertexAt(AllChains(req), k, 0))
    ensures VertexAt(AllChains(req), k, 0) in g.actions && Reaches(g.es, u, VertexAt(AllChains(req), k, 0))
  {
    var first := VertexAt(AllChains(req), k, 0);
    PlainIsKept(req, g, k, 0);
    assert IsFirstAction(g.actions, p, first);
    assert IsDeleteDependency(req, g.vertices, g.actions, Edge(u, first));
    DependencyReaches(req, g, u, first);
  }

  /** A child's Delete or Unmount precedes all that is done to its parent, modified or deleted. */
  lemma DeleteBeforeUse(req: Request, g: Graph, u: Vertex, w: Vertex, p: Sid)
    requires WellFormed(req) && Depended(req, g)
    requires EndsChild(req, g.actions, u, p) && Uses(req, w, p) && w in g.actions
    ensures Reaches(g.es, u, w)
  {
    var chains := AllChains(req);
    var k, j :| IsUse(chains, k, j, p, w);
    DeleteBeforeFirst(req, g, u, k, p);
    if j > 0 {
      var first := VertexAt(chains, k, 0);
      ChainReaches(chains, k, 0, j);
      KeptReaches(req, g, first, w);
      ReachesTrans(g.es, u, first, w);
    }
  }

  /** What the chains order stays ordered if it has not been merged away. */
  lemma KeptReaches(req: Request, g: Graph, u: Vertex, v: Vertex)
    requires Depended(req, g) && u in g.actions && v in g.actions
    requires Reaches(Support(EdgesOf(AllChains(req))), u, v)
    ensures Reaches(g.es, u, v)
  {
    var es := Support(EdgesOf(AllChains(req)));
    var n: nat :| Walk(es, n, u, v);
    QuotientKeepsWalk(es, g.rep, n, u, v);
    assert RepOf(g.rep, u) == u && RepOf(g.rep, v) == v;
    ReachesMono(Quotient(es, g.rep), g.es, u, v);
  }

  /** In particular the parent's Delete. */
  lemma DeleteBeforeParent(req: Request, g: Graph, u: Vertex, v: Vertex, p: Sid)
    requires WellFormed(req) && Depended(req, g)
    requires EndsChild(req, g.actions, u, p) && v in g.actions && Deletes(g.actions[v], p)
    ensures Reaches(g.es, u, v)
  {
    DeleteUses(req, g, v, p);
    DeleteBeforeUse(req, g, u, v, p);
  }

  lemma DeleteUses(req: Request, g: Graph, v: Vertex, p: Sid)
    requires WellFormed(req) && Depended(req, g) && v in g.actions && Deletes(g.actions[v], p)
    ensures Uses(req, v, p)
  {
    var k, i := PlaceOf(req, g, v);
    assert OwnAction(AllChains(req)[k].At(0), p);
    assert IsUse(AllChains(req), k, i, p, v);
  }

  /** On an existing parent, the former children are deleted before anything new is created. */
  lemma DeleteBeforeSibling(req: Request, g: Graph,
                            u: Vertex, v: Vertex, p: Sid, c: Sid)
    requires WellFormed(req) && Depended(req, g)
    requires u in g.actions && Deletes(g.actions[u], c) && c in req.ChildrenInLhs(p)
    requires v in g.actions && g.actions[v].kind.IsCreate() && g.actions[v].affectsDevice
    requires p in req.ParentsInRhs(g.actions[v].sid)
    requires p in req.lhs && g.actions[v].sid !in req.dependencyManaged
    ensures Reaches(g.es, u, v)
  {
    var chains := AllChains(req);
    var k, i := PlaceOf(req, g, u);
    LastOfOwnChain(req, g, k, i);
    FrontOfLasts(g.vertices, g.actions, c, u);
    assert WaitsForParent(req, g.vertices, g.actions, g.actions[v].sid, p, u);
    assert IsCreateDependency(req, g.vertices, g.actions, Edge(u, v));
    DependencyReaches(req, g, u, v);
  }

  // ----- ancestors through devices that are only created as a side effect

  /** p is n parent steps above c, and the devices in between are new and have a Create, possibly sync-only. */
  ghost predicate NewLine(req: Request, n: nat, p: Sid, c: Sid) {
    if n == 0 then false
    else if n == 1 then p in req.ParentsInRhs(c)
    else exists m :: m in req.ParentsInRhs(c) && HasCreate(ActionsOf(AllChains(req)), m) && NewLine(req, n - 1, p, m)
  }

  /** What prepares a device precedes the Creates and Mounts of its children, and no Create has been merged away. */
  ghost predicate ParentsFirst(req: Request, g: Graph) {
    && (forall u, v, p :: Prepares(req, u, p) && WaitsFor(req, g, v, p) ==> Reaches(g.es, u, v))
    && (forall u, p :: u in g.actions && Creates(g.actions[u], p) ==> Prepares(req, u, p))
    && (forall m :: HasCreate(ActionsOf(AllChains(req)), m) ==> HasCreate(g.actions, m))
  }

  /** v creates or mounts a device that is n steps below p. */
  ghost predicate IsInLine(req: Request, g: Graph, n: nat, p: Sid, v: Vertex) {
    && v in g.actions && g.actions[v].kind.IsCreate() && g.actions[v].affectsDevice
    && NewLine(req, n, p, g.actions[v].sid)
  }

  ghost predicate WaitsFor(req: Request, g: Graph, v: Vertex, p: Sid) {
    && v in g.actions && g.actions[v].kind.IsCreate() && g.actions[v].affectsDevice
    && p in req.ParentsInRhs(g.actions[v].sid)
  }

  lemma ParentsAreFirst(req: Request, g: Graph)
    requires WellFormed(req) && Depended(req, g)
    ensures ParentsFirst(req, g)
  {
    forall u, v, p | Prepares(req, u, p) && WaitsFor(req, g, v, p) ensures Reaches(g.es, u, v) {
      PreparedBeforeChild(req, g, u, v, p);
    }
    forall u, p | u in g.actions && Creates(g.actions[u], p) ensures Prepares(req, u, p) {
      CreatePrepares(req, g, u, p);
    }
    forall m | HasCreate(ActionsOf(AllChains(req)), m) ensures HasCreate(g.actions, m) {
      var w :| w in ActionsOf(AllChains(req)) && Creates(ActionsOf(AllChains(req))[w], m);
      assert w in g.actions && g.actions[w] == ActionsOf(AllChains(req))[w];
    }
  }

  /** So it precedes the Creates and Mounts of all descendants down a line of new devices, too. */
  lemma {:induction false} PreparedBeforeDescendant(req: Request, g: Graph, n: nat, u: Vertex, v: Vertex, p: Sid)
    requires ParentsFirst(req, g) && Prepares(req, u, p) && IsInLine(req, g, n, p, v)
    ensures Reaches(g.es, u, v)
    decreases n
  {
    if n == 1 {
      assert WaitsFor(req, g, v, p);
    } else {
      var w := CreateInLine(req, g, n, p, v);
      PreparedBeforeDescendant(req, g, n - 1, u, w, p);
      ReachesTrans(g.es, u, w, v);
    }
  }

  /** The Create one step up the line. */
  lemma CreateInLine(req: Request, g: Graph, n: nat, p: Sid, v: Vertex) returns (w: Vertex)
    requires ParentsFirst(req, g) && n > 1 && IsInLine(req, g, n, p, v)
    ensures IsInLine(req, g, n - 1, p, w) && Reaches(g.es, w, v)
  {
    var m := NextInLine(req, n, p, g.actions[v].sid);
    assert HasCreate(g.actions, m) && WaitsFor(req, g, v, m);
    w :| w in g.actions && Creates(g.actions[w], m);
  }

  lemma NextInLine(req: Request, n: nat, p: Sid, c: Sid) returns (m: Sid)
    requires n > 1 && NewLine(req, n, p, c)
    ensures m in req.ParentsInRhs(c) && HasCreate(ActionsOf(AllChains(req)), m) && NewLine(req, n - 1, p, m)
  {
    m :| m in req.ParentsInRhs(c) && HasCreate(ActionsOf(AllChains(req)), m) && NewLine(req, n - 1, p, m);
  }

  // ----- safety of whole runs

  /** The final graph: sync-only actions contracted away, and an order of what is left. */
  ghost predicate Ordered(g: Graph, vertices: seq<Vertex>, edges: seq<Edge>, actions: map<Vertex, Action>,
                          order: seq<Vertex>)
  {
    && actions == g.actions - Syncs(g.actions)
    && (forall v :: v in vertices <==> v in actions)
    && Within(Support(edges), Elems(vertices))
    && SameReach(vertices, Support(edges), g.es)
    && IsTopological(vertices, edges, order)
  }

  /** The order has all the actions, and every action comes after those that reach it. */
  ghost predicate Respects(g: Graph, actions: map<Vertex, Action>, order: seq<Vertex>) {
    && (forall v :: v in actions ==> v in g.actions && g.actions[v] == actions[v])
    && (forall v :: v in order <==> v in actions)
    && (forall u, i :: u in actions && 0 <= i < |order| && Reaches(g.es, u, order[i]) ==> u in order[..i])
  }

  lemma OrderedRespects(g: Graph, vertices: seq<Vertex>, edges: seq<Edge>, actions: map<Vertex, Action>,
                        order: seq<Vertex>)
    requires Ordered(g, vertices, edges, actions, order)
    ensures Respects(g, actions, order)
  {
    forall v ensures v in order <==> v in actions {
      assert v in order <==> v in Elems(order);
      assert v in vertices <==> v in Elems(vertices);
    }
    forall u, i | u in actions && 0 <= i < |order| && Reaches(g.es, u, order[i]) ensures u in order[..i] {
      assert order[i] in order && order[i] in vertices;
      TopologicalRespectsReach(vertices, edges, order, u, order[i]);
      IndexIsBefore(order, u, i);
    }
  }

  lemma IndexIsBefore(order: seq<Vertex>, u: Vertex, i: nat)
    requires Distinct(order) && i < |order| && u in order && IndexOf(order, u) < IndexOf(order, order[i])
    ensures u in order[..i]
  {
    assert IndexOf(order, order[i]) == i;
    assert order[..i][IndexOf(order, u)] == u;
  }

  /** An order of the graph before the contraction: all its actions, the sync-only ones at their places. */
  ghost predicate IsFullOrder(g: Graph, full: seq<Vertex>, order: seq<Vertex>) {
    && Linear(g.es, full) && Elems(full) == Elems(g.vertices)
    && Survivors(full, Syncs(g.actions)) == order
  }

  lemma FullRespects(req: Request, g: Graph, full: seq<Vertex>, order: seq<Vertex>)
    requires Depended(req, g) && IsFullOrder(g, full, order)
    ensures Respects(g, g.actions, full)
  {
    forall v ensures v in full <==> v in g.actions {
      assert v in full <==> v in Elems(full);
      assert v in g.vertices <==> v in Elems(g.vertices);
    }
    forall u, i | u in g.actions && 0 <= i < |full| && Reaches(g.es, u, full[i]) ensures u in full[..i] {
      ReachedComesLater(g.es, full, u, full[i]);
      IndexIsBefore(full, u, i);
    }
  }

  /**
   * Running action number i is safe in the devices that exist by then:
   * a Create or Mount finds every parent, and every ancestor up a line of new devices, that was there or has a
   * Create among the actions, and all that belongs to the making of such an ancestor is done; a Delete finds no
   * child left that is to be deleted or unmounted; a Create or Mount on an existing parent finds none of the
   * parent's former children that are to be deleted; and what is done to a parent, even if it only is modified,
   * comes after the deletion or unmounting of its children.
   */
  ghost predicate SafeStep(req: Request, actions: map<Vertex, Action>, order: seq<Vertex>, i: nat)
    requires i < |order| && forall v :: v in order ==> v in actions
  {
    SafeCreation(req, actions, order, i) && SafeDeletion(req, actions, order, i) && SafeUse(req, actions, order, i)
  }

  ghost predicate SafeCreation(req: Request, actions: map<Vertex, Action>, order: seq<Vertex>, i: nat)
    requires i < |order| && forall v :: v in order ==> v in actions
  {
    var action := actions[order[i]];
    var present := Run(req, actions, order[..i], Elems(req.lhs));
    action.affectsDevice && action.kind.IsCreate() ==>
      && (forall p :: p in req.ParentsInRhs(action.sid) && p in req.lhs ==> p in present)
      && (forall n, p :: NewLine(req, n, p, action.sid) && HasCreate(actions, p) ==> p in present)
      && (forall n, p, u :: NewLine(req, n, p, action.sid) && Prepares(req, u, p) && u in actions ==> u in order[..i])
      && (action.sid !in req.dependencyManaged ==>
            forall p, c :: IsFormerSibling(req, action.sid, p, c) && HasDelete(actions, c) ==> c !in present)
  }

  ghost predicate SafeDeletion(req: Request, actions: map<Vertex, Action>, order: seq<Vertex>, i: nat)
    requires i < |order| && forall v :: v in order ==> v in actions
  {
    var action := actions[order[i]];
    var present := Run(req, actions, order[..i], Elems(req.lhs));
    action.affectsDevice && action.kind.Delete? ==>
      && (forall c :: c in req.ChildrenInLhs(action.sid) && HasRemover(req, actions, c) ==> c !in present)
      && (forall u :: EndsChild(req, actions, u, action.sid) ==> u in order[..i])
  }

  ghost predicate SafeUse(req: Request, actions: map<Vertex, Action>, order: seq<Vertex>, i: nat)
    requires i < |order|
  {
    forall u, p :: EndsChild(req, actions, u, p) && Uses(req, order[i], p) ==> u in order[..i]
  }

  /** c was a child of the existing parent p of s. */
  predicate IsFormerSibling(req: Request, s: Sid, p: Sid, c: Sid) {
    p in req.ParentsInRhs(s) && p in req.lhs && c in req.ChildrenInLhs(p)
  }

  /** Adding only concerns devices of RHS and removing only devices of LHS. */
  ghost predicate Tracks(req: Request, actions: map<Vertex, Action>) {
    && (forall v, s :: v in actions && Adds(req, actions[v], s) ==> s in req.rhs)
    && (forall v, s :: v in actions && Removes(req, actions[v], s) ==> s in req.lhs)
    && (forall v, s :: v in actions && Creates(actions[v], s) ==> s !in req.lhs)
    && (forall v, s :: v in actions && Deletes(actions[v], s) ==> s !in req.rhs)
  }

  lemma ActionsTrack(req: Request, g: Graph, actions: map<Vertex, Action>, order: seq<Vertex>)
    requires WellFormed(req) && Depended(req, g) && Respects(g, actions, order)
    ensures Tracks(req, actions)
  {
    forall v | v in actions
      ensures forall s :: Adds(req, actions[v], s) ==> s in req.rhs
      ensures forall s :: Removes(req, actions[v], s) ==> s in req.lhs
      ensures forall s :: Creates(actions[v], s) ==> s !in req.lhs
      ensures forall s :: Deletes(actions[v], s) ==> s !in req.rhs
    {
      var k, i := PlaceOf(req, g, v);
      assert !MissesDevice(req, g.actions, v);
    }
  }

  lemma TracksPresent(req: Request, actions: map<Vertex, Action>, part: seq<Vertex>, s: Sid)
    requires Tracks(req, actions) && forall v :: v in part ==> v in actions
    ensures s in Run(req, actions, part, Elems(req.lhs)) <==>
            (s in req.lhs && !RemovedIn(req, actions, part, s)) || AddedIn(req, actions, part, s)
  {
    assert HasAdder(req, actions, s) ==> s !in req.lhs;
    assert HasRemover(req, actions, s) ==> s in req.lhs;
    RunMembers(req, actions, part, Elems(req.lhs), s);
  }

  lemma CreatedBefore(req: Request, actions: map<Vertex, Action>, part: seq<Vertex>, u: Vertex, p: Sid)
    requires Tracks(req, actions) && forall v :: v in part ==> v in actions
    requires u in part && Creates(actions[u], p)
    ensures p in Run(req, actions, part, Elems(req.lhs))
  {
    TracksPresent(req, actions, part, p);
    assert Adds(req, actions[u], p);
  }

  lemma RemovedBefore(req: Request, actions: map<Vertex, Action>, part: seq<Vertex>, u: Vertex, c: Sid)
    requires Tracks(req, actions) && forall v :: v in part ==> v in actions
    requires u in part && Removes(req, actions[u], c)
    ensures c !in Run(req, actions, part, Elems(req.lhs))
  {
    TracksPresent(req, actions, part, c);
    assert RemovedIn(req, actions, part, c) && c in req.lhs;
  }

  lemma SurvivingParentStays(req: Request, actions: map<Vertex, Action>, part: seq<Vertex>, p: Sid)
    requires Tracks(req, actions) && forall v :: v in part ==> v in actions
    requires p in req.lhs && p in req.rhs
    ensures p in Run(req, actions, part, Elems(req.lhs))
  {
    TracksPresent(req, actions, part, p);
  }

  /** Every step of an order that respects the graph is safe. */
  lemma EveryStepIsSafe(req: Request, g: Graph, actions: map<Vertex, Action>, order: seq<Vertex>, i: nat)
    requires WellFormed(req) && Depended(req, g) && Respects(g, actions, order) && i < |order|
    ensures SafeStep(req, actions, order, i)
  {
    CreatingIsSafe(req, g, actions, order, i);
    DeletingIsSafe(req, g, actions, order, i);
    UsingIsSafe(req, g, actions, order, i);
  }

  lemma CreatingIsSafe(req: Request, g: Graph, actions: map<Vertex, Action>, order: seq<Vertex>, i: nat)
    requires WellFormed(req) && Depended(req, g) && Respects(g, actions, order) && i < |order|
    ensures SafeCreation(req, actions, order, i)
  {
    if actions[order[i]].affectsDevice && actions[order[i]].kind.IsCreate() {
      ActionsTrack(req, g, actions, order);
      ParentsAreFirst(req, g);
      var s, present := actions[order[i]].sid, Run(req, actions, order[..i], Elems(req.lhs));
      forall p | p in req.ParentsInRhs(s) && p in req.lhs ensures p in present {
        SurvivingParentStays(req, actions, order[..i], p);
      }
      forall n, p, u | NewLine(req, n, p, s) && Prepares(req, u, p) && u in actions ensures u in order[..i] {
        PreparedBeforeDescendant(req, g, n, u, order[i], p);
      }
      forall n, p | NewLine(req, n, p, s) && HasCreate(actions, p) ensures p in present {
        var u :| u in actions && Creates(actions[u], p);
        CreatedBefore(req, actions, order[..i], u, p);
      }
      forall p, c | s !in req.dependencyManaged && IsFormerSibling(req, s, p, c) && HasDelete(actions, c)
        ensures c !in present
      {
        var u :| u in actions && Deletes(actions[u], c);
        DeleteBeforeSibling(req, g, u, order[i], p, c);
        RemovedBefore(req, actions, order[..i], u, c);
      }
    }
  }

  lemma DeletingIsSafe(req: Request, g: Graph, actions: map<Vertex, Action>, order: seq<Vertex>, i: nat)
    requires WellFormed(req) && Depended(req, g) && Respects(g, actions, order) && i < |order|
    ensures SafeDeletion(req, actions, order, i)
  {
    if actions[order[i]].affectsDevice && actions[order[i]].kind.Delete? {
      ActionsTrack(req, g, actions, order);
      var s := actions[order[i]].sid;
      forall u | EndsChild(req, actions, u, s) ensures u in order[..i] {
        DeleteBeforeParent(req, g, u, order[i], s);
      }
      forall c | c in req.ChildrenInLhs(s) && HasRemover(req, actions, c)
        ensures c !in Run(req, actions, order[..i], Elems(req.lhs))
      {
        var u :| u in actions && Removes(req, actions[u], c);
        assert EndsChild(req, actions, u, s);
        RemovedBefore(req, actions, order[..i], u, c);
      }
    }
  }

  lemma UsingIsSafe(req: Request, g: Graph, actions: map<Vertex, Action>, order: seq<Vertex>, i: nat)
    requires WellFormed(req) && Depended(req, g) && Respects(g, actions, order) && i < |order|
    ensures SafeUse(req, actions, order, i)
  {
    forall u, p | EndsChild(req, actions, u, p) && Uses(req, order[i], p) ensures u in order[..i] {
      DeleteBeforeUse(req, g, u, order[i], p);
    }
  }

  lemma MountsAreReal(req: Request, g: Graph, u: Vertex)
    requires WellFormed(req) && Depended(req, g) && u in g.actions && g.actions[u].kind.IsMountOrUnmount()
    ensures g.actions[u].affectsDevice && !g.actions[u].onlySync
  {
    var k, i := PlaceOf(req, g, u);
  }

  // ----- where a run ends

  /** What was there, minus what is removed, plus what is added. */
  ghost predicate RunsTo(req: Request, actions: map<Vertex, Action>, order: seq<Vertex>)
    requires forall v :: v in order ==> v in actions
  {
    forall s :: s in Run(req, actions, order, Elems(req.lhs)) <==>
      (s in req.lhs && !HasRemover(req, actions, s)) || HasAdder(req, actions, s)
  }

  lemma WholeRun(req: Request, g: Graph, actions: map<Vertex, Action>, order: seq<Vertex>)
    requires WellFormed(req) && Depended(req, g) && Respects(g, actions, order)
    ensures RunsTo(req, actions, order)
  {
    ActionsTrack(req, g, actions, order);
    forall s ensures s in Run(req, actions, order, Elems(req.lhs)) <==>
      (s in req.lhs && !HasRemover(req, actions, s)) || HasAdder(req, actions, s)
    {
      TracksPresent(req, actions, order, s);
      assert AddedIn(req, actions, order, s) <==> HasAdder(req, actions, s);
      assert RemovedIn(req, actions, order, s) <==> HasRemover(req, actions, s);
    }
  }

  /** Every new device has a Create or Mount, every vanishing one a Delete or Unmount. */
  ghost predicate Complete(req: Request, actions: map<Vertex, Action>) {
    && (forall s :: s in req.rhs && s !in req.lhs ==> HasAdder(req, actions, s))
    && (forall s :: s in req.lhs && s !in req.rhs ==> HasRemover(req, actions, s))
  }

  /** A run ends in staging exactly if its actions are complete. */
  lemma WholeRunReachesStaging(req: Request, g: Graph, actions: map<Vertex, Action>, order: seq<Vertex>)
    requires WellFormed(req) && Depended(req, g) && Respects(g, actions, order)
    ensures Run(req, actions, order, Elems(req.lhs)) == Elems(req.rhs) <==> Complete(req, actions)
  {
    var last := Run(req, actions, order, Elems(req.lhs));
    ActionsTrack(req, g, actions, order);
    WholeRun(req, g, actions, order);
    if Complete(req, actions) {
      forall s ensures s in last <==> s in Elems(req.rhs) {
        assert HasAdder(req, actions, s) ==> s in req.rhs;
        assert HasRemover(req, actions, s) ==> s !in req.rhs;
      }
    }
    if last == Elems(req.rhs) {
      forall s ensures s in last <==> s in req.rhs {
        assert s in last <==> s in Elems(req.rhs);
      }
      forall s | s in req.rhs && s !in req.lhs ensures HasAdder(req, actions, s) {
        assert s in last;
      }
      forall s | s in req.lhs && s !in req.rhs ensures HasRemover(req, actions, s) {
        assert s !in last;
      }
    }
  }

  /** Every parent of what is created or mounted at position i exists by then. */
  ghost predicate ParentsPresent(req: Request, actions: map<Vertex, Action>, order: seq<Vertex>, i: nat)
    requires i < |order| && forall v :: v in order ==> v in actions
  {
    var action := actions[order[i]];
    action.affectsDevice && action.kind.IsCreate() ==>
      forall p :: p in req.ParentsInRhs(action.sid) ==> p in Run(req, actions, order[..i], Elems(req.lhs))
  }

  /** If the actions are complete, no Create or Mount ever runs while a parent is missing. */
  lemma EveryParentIsPresent(req: Request, g: Graph, order: seq<Vertex>, i: nat)
    requires WellFormed(req) && Depended(req, g) && Respects(g, g.actions, order) && i < |order|
    requires Complete(req, g.actions)
    ensures ParentsPresent(req, g.actions, order, i)
  {
    EveryStepIsSafe(req, g, g.actions, order, i);
    var s := g.actions[order[i]].sid;
    forall p | p in req.ParentsInRhs(s) && p !in req.lhs ensures NewLine(req, 1, p, s) && HasCreate(g.actions, p) {
      NewParentIsCreated(req, g, s, p);
    }
  }

  lemma NewParentIsCreated(req: Request, g: Graph, s: Sid, p: Sid)
    requires WellFormed(req) && Depended(req, g) && Complete(req, g.actions)
    requires p in req.ParentsInRhs(s) && p !in req.lhs
    ensures HasCreate(g.actions, p)
  {
    var v :| v in g.actions && Adds(req, g.actions[v], p);
    assert v in ActionsOf(AllChains(req)) && ActionsOf(AllChains(req))[v] == g.actions[v];
    assert !IsMounted(ActionsOf(AllChains(req)), p);
    assert Creates(g.actions[v], p);
  }

  /** The request itself has a Create or Mount for every new device, and a Delete or Unmount for every vanishing one. */
  ghost predicate Provides(req: Request) {
    && (forall s :: s in req.rhs && s !in req.lhs ==> exists action :: Provided(req, action) && Adds(req, action, s))
    && (forall s :: s in req.lhs && s !in req.rhs ==> exists action :: Provided(req, action) && Removes(req, action, s))
  }

  /** What the planner collects is complete exactly if the request provides for staging. */
  lemma CompleteMeansProvided(req: Request)
    ensures Complete(req, ActionsOf(AllChains(req))) <==> Provides(req)
  {
    var all := ActionsOf(AllChains(req));
    forall s ensures HasAdder(req, all, s) <==> exists action :: Provided(req, action) && Adds(req, action, s)
             ensures HasRemover(req, all, s) <==> exists action :: Provided(req, action) && Removes(req, action, s)
    {
      ProvidedEffects(req, s);
    }
  }

  lemma ProvidedEffects(req: Request, s: Sid)
    ensures var all := ActionsOf(AllChains(req));
      && (HasAdder(req, all, s) <==> exists action :: Provided(req, action) && Adds(req, action, s))
      && (HasRemover(req, all, s) <==> exists action :: Provided(req, action) && Removes(req, action, s))
  {
    var all := ActionsOf(AllChains(req));
    forall action ensures Provided(req, action) <==> exists v :: v in all && all[v] == action {
      ProvidedAreLaid(req, action);
    }
    forall v | v in all ensures Provided(req, all[v]) {
      ProvidedAreLaid(req, all[v]);
    }
  }

  /** Merging duplicates takes nothing away: the graph is complete exactly if the chains were. */
  lemma MergingKeepsEffects(req: Request, g: Graph)
    requires WellFormed(req) && Depended(req, g)
    ensures Complete(req, g.actions) <==> Complete(req, ActionsOf(AllChains(req)))
  {
    forall s ensures HasAdder(req, g.actions, s) <==> HasAdder(req, ActionsOf(AllChains(req)), s)
             ensures HasRemover(req, g.actions, s) <==> HasRemover(req, ActionsOf(AllChains(req)), s) {
      SameEffects(req, g, s);
    }
  }

  lemma SameEffects(req: Request, g: Graph, s: Sid)
    requires WellFormed(req) && Depended(req, g)
    ensures HasAdder(req, g.actions, s) <==> HasAdder(req, ActionsOf(AllChains(req)), s)
    ensures HasRemover(req, g.actions, s) <==> HasRemover(req, ActionsOf(AllChains(req)), s)
  {
    var all := ActionsOf(AllChains(req));
    if HasAdder(req, all, s) {
      var v :| v in all && Adds(req, all[v], s);
      var r := Representative(req, g, v);
      assert Adds(req, g.actions[r], s);
    }
    if HasRemover(req, all, s) {
      var v :| v in all && Removes(req, all[v], s);
      var r := Representative(req, g, v);
      assert Removes(req, g.actions[r], s);
    }
    assert forall v :: v in g.actions ==> v in all && all[v] == g.actions[v];
  }

  lemma Representative(req: Request, g: Graph, v: Vertex) returns (r: Vertex)
    requires WellFormed(req) && Depended(req, g) && v in ActionsOf(AllChains(req))
    ensures r in g.actions && g.actions[r].sid == ActionsOf(AllChains(req))[v].sid
    ensures var was, now := ActionsOf(AllChains(req))[v], g.actions[r];
      && (was.kind.IsCreate() <==> now.kind.IsCreate()) && (was.kind.IsDelete() <==> now.kind.IsDelete())
      && (was.affectsDevice ==> now.affectsDevice)
  {
    if v in g.rep {
      r := g.rep[v];
      assert Same(ActionsOf(AllChains(req)), r, v);
      MountsAreReal(req, g, r);
    } else {
      r := v;
    }
  }
}
