/** The edges the dependency stage adds for created and deleted devices, as functions of the graph. */
module Dependencies {

  import opened Wrappers
  import opened Reachability
  import opened Actions
  import opened Contraction
  import opened DeviceChanges

  /** The vertices of the device's actions, in vertex order. */
  function WithSid(vertices: seq<Vertex>, actions: map<Vertex, Action>, s: Sid): seq<Vertex> {
    if vertices == [] then []
    else
      var v := vertices[|vertices| - 1];
      WithSid(vertices[..|vertices| - 1], actions, s) +
      (if v in actions && actions[v].affectsDevice && actions[v].sid == s then [v] else [])
  }

  function OnlyFirsts(list: seq<Vertex>, actions: map<Vertex, Action>): seq<Vertex> {
    if list == [] then []
    else
      var v := list[|list| - 1];
      OnlyFirsts(list[..|list| - 1], actions) + (if v in actions && actions[v].first then [v] else [])
  }

  function OnlyLasts(list: seq<Vertex>, actions: map<Vertex, Action>): seq<Vertex> {
    if list == [] then []
    else
      var v := list[|list| - 1];
      OnlyLasts(list[..|list| - 1], actions) + (if v in actions && actions[v].last then [v] else [])
  }

  function Firsts(vertices: seq<Vertex>, actions: map<Vertex, Action>, s: Sid): seq<Vertex> {
    OnlyFirsts(WithSid(vertices, actions, s), actions)
  }

  function Lasts(vertices: seq<Vertex>, actions: map<Vertex, Action>, s: Sid): seq<Vertex> {
    OnlyLasts(WithSid(vertices, actions, s), actions)
  }

  lemma {:induction false} WithSidMembers(vertices: seq<Vertex>, actions: map<Vertex, Action>, s: Sid, v: Vertex)
    ensures v in WithSid(vertices, actions, s) <==>
            v in vertices && v in actions && actions[v].affectsDevice && actions[v].sid == s
  {
    if vertices != [] {
      WithSidMembers(vertices[..|vertices| - 1], actions, s, v);
      assert vertices == vertices[..|vertices| - 1] + [vertices[|vertices| - 1]];
    }
  }

  lemma WithSidSnoc(vertices: seq<Vertex>, actions: map<Vertex, Action>, s: Sid, i: nat)
    requires i < |vertices| && vertices[i] in actions
    ensures WithSid(vertices[..i + 1], actions, s) ==
            WithSid(vertices[..i], actions, s) +
            (if actions[vertices[i]].affectsDevice && actions[vertices[i]].sid == s then [vertices[i]] else [])
  {
    assert vertices[..i + 1][..i] == vertices[..i];
  }

  lemma {:induction false} OnlyFirstsMembers(list: seq<Vertex>, actions: map<Vertex, Action>, v: Vertex)
    ensures v in OnlyFirsts(list, actions) <==> v in list && v in actions && actions[v].first
  {
    if list != [] {
      OnlyFirstsMembers(list[..|list| - 1], actions, v);
      assert list == list[..|list| - 1] + [list[|list| - 1]];
    }
  }

  lemma {:induction false} OnlyLastsMembers(list: seq<Vertex>, actions: map<Vertex, Action>, v: Vertex)
    ensures v in OnlyLasts(list, actions) <==> v in list && v in actions && actions[v].last
  {
    if list != [] {
      OnlyLastsMembers(list[..|list| - 1], actions, v);
      assert list == list[..|list| - 1] + [list[|list| - 1]];
    }
  }

  /** The deletion that Create waits for on behalf of one former child of an existing parent, if any. */
  function SiblingSource(vertices: seq<Vertex>, actions: map<Vertex, Action>, c: Sid): seq<Vertex> {
    var tmp := Lasts(vertices, actions, c);
    if tmp != [] && tmp[0] in actions && actions[tmp[0]].kind.IsDelete() then [tmp[0]] else []
  }

  function SiblingSources(vertices: seq<Vertex>, actions: map<Vertex, Action>, children: seq<Sid>): seq<Vertex> {
    if children == [] then []
    else
      SiblingSources(vertices, actions, children[..|children| - 1]) +
      SiblingSource(vertices, actions, children[|children| - 1])
  }

  /** The actions Create waits for on behalf of one parent p of the created device s. */
  function ParentSources(req: Request, vertices: seq<Vertex>, actions: map<Vertex, Action>, s: Sid,
                         p: Sid): seq<Vertex>
  {
    if p !in req.lhs then
      var tmp := Lasts(vertices, actions, p);
      if tmp == [] then [] else [tmp[0]]
    else if s in req.dependencyManaged then []
    else SiblingSources(vertices, actions, req.ChildrenInLhs(p))
  }

  function CreateSources(req: Request, vertices: seq<Vertex>, actions: map<Vertex, Action>, s: Sid,
                         parents: seq<Sid>): seq<Vertex>
  {
    if parents == [] then []
    else
      CreateSources(req, vertices, actions, s, parents[..|parents| - 1]) +
      ParentSources(req, vertices, actions, s, parents[|parents| - 1])
  }

  /** The actions Delete must precede: the first ones of every parent. */
  function DeleteTargets(vertices: seq<Vertex>, actions: map<Vertex, Action>, parents: seq<Sid>): seq<Vertex> {
    if parents == [] then []
    else
      DeleteTargets(vertices, actions, parents[..|parents| - 1]) +
      Firsts(vertices, actions, parents[|parents| - 1])
  }

  /** All edges added on behalf of vertex v. */
  function EdgesFor(req: Request, vertices: seq<Vertex>, actions: map<Vertex, Action>, v: Vertex): seq<Edge> {
    if v !in actions || !actions[v].affectsDevice then []
    else if actions[v].kind.IsCreate() then
      FanIn(CreateSources(req, vertices, actions, actions[v].sid, req.ParentsInRhs(actions[v].sid)), v)
    else if actions[v].kind.IsDelete() then
      Fan(v, DeleteTargets(vertices, actions, req.ParentsInLhs(actions[v].sid)))
    else []
  }

  function EdgesForAll(req: Request, vertices: seq<Vertex>, actions: map<Vertex, Action>,
                       list: seq<Vertex>): seq<Edge>
  {
    if list == [] then []
    else
      EdgesForAll(req, vertices, actions, list[..|list| - 1]) +
      EdgesFor(req, vertices, actions, list[|list| - 1])
  }

  /** The parent either exists already or has an action to wait for. */
  predicate HasParentAction(req: Request, vertices: seq<Vertex>, actions: map<Vertex, Action>, p: Sid) {
    p in req.lhs || Lasts(vertices, actions, p) != []
  }

  predicate AllHaveActions(req: Request, vertices: seq<Vertex>, actions: map<Vertex, Action>, parents: seq<Sid>) {
    parents == [] ||
    (AllHaveActions(req, vertices, actions, parents[..|parents| - 1]) &&
     HasParentAction(req, vertices, actions, parents[|parents| - 1]))
  }

  lemma AllHaveActionsRound(req: Request, vertices: seq<Vertex>, actions: map<Vertex, Action>, parents: seq<Sid>,
                            i: nat)
    requires i < |parents|
    ensures AllHaveActions(req, vertices, actions, parents[..i + 1]) <==>
            AllHaveActions(req, vertices, actions, parents[..i]) && HasParentAction(req, vertices, actions, parents[i])
  {
    assert parents[..i + 1][..i] == parents[..i];
  }

  lemma {:induction false} AllHaveActionsMeans(req: Request, vertices: seq<Vertex>, actions: map<Vertex, Action>,
                                               parents: seq<Sid>)
    ensures AllHaveActions(req, vertices, actions, parents) <==>
            forall p :: p in parents ==> HasParentAction(req, vertices, actions, p)
  {
    if parents != [] {
      AllHaveActionsMeans(req, vertices, actions, parents[..|parents| - 1]);
      assert parents == parents[..|parents| - 1] + [parents[|parents| - 1]];
    }
  }

  /** Some created parent of v has no action to wait for: the planner gives up. */
  ghost predicate MissesParentAction(req: Request, vertices: seq<Vertex>, actions: map<Vertex, Action>, v: Vertex) {
    && v in actions && actions[v].affectsDevice && actions[v].kind.IsCreate()
    && exists p :: p in req.ParentsInRhs(actions[v].sid) && !HasParentAction(req, vertices, actions, p)
  }

  /** The device of v is not in the devicegraph its action refers to. */
  predicate MissesDevice(req: Request, actions: map<Vertex, Action>, v: Vertex) {
    && v in actions && actions[v].affectsDevice
    && ((actions[v].kind.IsCreate() && actions[v].sid !in req.rhs) ||
        (actions[v].kind.IsDelete() && actions[v].sid !in req.lhs))
  }

  // ----- one round of each loop

  lemma Assoc(a: seq<Edge>, b: seq<Edge>, c: seq<Edge>)
    ensures (a + b) + c == a + (b + c)
  {
  }

  lemma SiblingRound(vertices: seq<Vertex>, actions: map<Vertex, Action>, es: seq<Edge>, children: seq<Sid>, j: nat,
                     v: Vertex)
    requires j < |children|
    ensures es + FanIn(SiblingSources(vertices, actions, children[..j + 1]), v) ==
            es + FanIn(SiblingSources(vertices, actions, children[..j]), v)
            + FanIn(SiblingSource(vertices, actions, children[j]), v)
  {
    assert children[..j + 1][..j] == children[..j];
    var before, now := SiblingSources(vertices, actions, children[..j]), SiblingSource(vertices, actions, children[j]);
    FanInSnoc(before, now, v);
    Assoc(es, FanIn(before, v), FanIn(now, v));
  }

  lemma CreateRound(req: Request, vertices: seq<Vertex>, actions: map<Vertex, Action>, es: seq<Edge>,
                    s: Sid, parents: seq<Sid>, i: nat, v: Vertex)
    requires i < |parents|
    ensures es + FanIn(CreateSources(req, vertices, actions, s, parents[..i + 1]), v) ==
            es + FanIn(CreateSources(req, vertices, actions, s, parents[..i]), v)
            + FanIn(ParentSources(req, vertices, actions, s, parents[i]), v)
  {
    assert parents[..i + 1][..i] == parents[..i];
    var before, now := CreateSources(req, vertices, actions, s, parents[..i]),
      ParentSources(req, vertices, actions, s, parents[i]);
    FanInSnoc(before, now, v);
    Assoc(es, FanIn(before, v), FanIn(now, v));
  }

  lemma DeleteRound(vertices: seq<Vertex>, actions: map<Vertex, Action>, es: seq<Edge>, parents: seq<Sid>, i: nat,
                    v: Vertex)
    requires i < |parents|
    ensures es + Fan(v, DeleteTargets(vertices, actions, parents[..i + 1])) ==
            es + Fan(v, DeleteTargets(vertices, actions, parents[..i])) + Fan(v, Firsts(vertices, actions, parents[i]))
  {
    assert parents[..i + 1][..i] == parents[..i];
    var before, now := DeleteTargets(vertices, actions, parents[..i]), Firsts(vertices, actions, parents[i]);
    FanSnoc(v, before, now);
    Assoc(es, Fan(v, before), Fan(v, now));
  }

  lemma EdgesRound(req: Request, vertices: seq<Vertex>, actions: map<Vertex, Action>, es: seq<Edge>,
                   list: seq<Vertex>, i: nat)
    requires i < |list|
    ensures es + EdgesForAll(req, vertices, actions, list[..i + 1]) ==
            es + EdgesForAll(req, vertices, actions, list[..i]) + EdgesFor(req, vertices, actions, list[i])
  {
    assert list[..i + 1][..i] == list[..i];
    Assoc(es, EdgesForAll(req, vertices, actions, list[..i]), EdgesFor(req, vertices, actions, list[i]));
  }

  // ----- members

  lemma {:induction false} CreateSourcesExactly(req: Request, vertices: seq<Vertex>, actions: map<Vertex, Action>,
                                                s: Sid, parents: seq<Sid>, u: Vertex)
    ensures u in CreateSources(req, vertices, actions, s, parents) <==>
            exists p :: p in parents && u in ParentSources(req, vertices, actions, s, p)
  {
    if parents != [] {
      var front, last := parents[..|parents| - 1], parents[|parents| - 1];
      assert parents == front + [last];
      CreateSourcesExactly(req, vertices, actions, s, front, u);
    }
  }

  lemma {:induction false} SiblingSourcesExactly(vertices: seq<Vertex>, actions: map<Vertex, Action>,
                                                 children: seq<Sid>, u: Vertex)
    ensures u in SiblingSources(vertices, actions, children) <==>
            exists c :: c in children && u in SiblingSource(vertices, actions, c)
  {
    if children != [] {
      var front, last := children[..|children| - 1], children[|children| - 1];
      assert children == front + [last];
      SiblingSourcesExactly(vertices, actions, front, u);
    }
  }

  lemma {:induction false} DeleteTargetsExactly(vertices: seq<Vertex>, actions: map<Vertex, Action>,
                                                parents: seq<Sid>, u: Vertex)
    ensures u in DeleteTargets(vertices, actions, parents) <==>
            exists p :: p in parents && u in Firsts(vertices, actions, p)
  {
    if parents != [] {
      var front, last := parents[..|parents| - 1], parents[|parents| - 1];
      assert parents == front + [last];
      DeleteTargetsExactly(vertices, actions, front, u);
    }
  }

  lemma {:induction false} EdgesForAllExactly(req: Request, vertices: seq<Vertex>, actions: map<Vertex, Action>,
                                              list: seq<Vertex>, e: Edge)
    ensures e in EdgesForAll(req, vertices, actions, list) <==>
            exists v :: v in list && e in EdgesFor(req, vertices, actions, v)
  {
    if list != [] {
      var front, last := list[..|list| - 1], list[|list| - 1];
      assert list == front + [last];
      EdgesForAllExactly(req, vertices, actions, front, e);
    }
  }

  // ----- which edges these are

  /** An action of the device, marked as the last one of its chain. */
  predicate IsLastAction(actions: map<Vertex, Action>, s: Sid, v: Vertex) {
    v in actions && actions[v].affectsDevice && actions[v].sid == s && actions[v].last
  }

  /** An action of the device, marked as the first one of its chain. */
  predicate IsFirstAction(actions: map<Vertex, Action>, s: Sid, v: Vertex) {
    v in actions && actions[v].affectsDevice && actions[v].sid == s && actions[v].first
  }

  /** The action that stands for the end of the device's chain: the first in the list that is marked as last. */
  ghost predicate IsFront(vertices: seq<Vertex>, actions: map<Vertex, Action>, s: Sid, v: Vertex) {
    exists i :: IsFrontAt(vertices, actions, s, v, i)
  }

  ghost predicate IsFrontAt(vertices: seq<Vertex>, actions: map<Vertex, Action>, s: Sid, v: Vertex, i: int) {
    && 0 <= i < |vertices| && vertices[i] == v && IsLastAction(actions, s, v)
    && forall j :: 0 <= j < i ==> !IsLastAction(actions, s, vertices[j])
  }

  lemma LastsSnoc(front: seq<Vertex>, actions: map<Vertex, Action>, s: Sid, v: Vertex)
    ensures Lasts(front + [v], actions, s) ==
            Lasts(front, actions, s) + (if IsLastAction(actions, s, v) then [v] else [])
  {
    var list := WithSid(front, actions, s);
    assert (front + [v])[..|front|] == front;
    assert (list + [v])[..|list|] == list && list + [] == list;
  }

  lemma NoLasts(vertices: seq<Vertex>, actions: map<Vertex, Action>, s: Sid)
    ensures Lasts(vertices, actions, s) == [] <==> forall v :: v in vertices ==> !IsLastAction(actions, s, v)
  {
    var list := Lasts(vertices, actions, s);
    forall v ensures v in list <==> v in vertices && IsLastAction(actions, s, v) {
      WithSidMembers(vertices, actions, s, v);
      OnlyLastsMembers(WithSid(vertices, actions, s), actions, v);
    }
    if list != [] {
      assert list[0] in list;
    }
  }

  lemma FrontSnoc(front: seq<Vertex>, actions: map<Vertex, Action>, s: Sid, last: Vertex, v: Vertex)
    ensures IsFront(front + [last], actions, s, v) <==>
            || IsFront(front, actions, s, v)
            || (v == last && IsLastAction(actions, s, v) && forall u :: u in front ==> !IsLastAction(actions, s, u))
  {
    var list := front + [last];
    if i :| IsFrontAt(front, actions, s, v, i) {
      assert IsFrontAt(list, actions, s, v, i);
    }
    if v == last && IsLastAction(actions, s, v) && forall u :: u in front ==> !IsLastAction(actions, s, u) {
      assert forall j :: 0 <= j < |front| ==> list[j] == front[j] && front[j] in front;
      assert IsFrontAt(list, actions, s, v, |front|);
    }
    if i :| IsFrontAt(list, actions, s, v, i) {
      if i < |front| {
        assert forall j :: 0 <= j <= i ==> front[j] == list[j];
        assert IsFrontAt(front, actions, s, v, i);
      } else {
        assert forall j :: 0 <= j < |front| ==> front[j] == list[j];
      }
    }
  }

  lemma {:induction false} FrontOfLasts(vertices: seq<Vertex>, actions: map<Vertex, Action>, s: Sid, v: Vertex)
    ensures Lasts(vertices, actions, s) != [] && Lasts(vertices, actions, s)[0] == v <==>
            IsFront(vertices, actions, s, v)
  {
    if vertices != [] {
      var front, last := vertices[..|vertices| - 1], vertices[|vertices| - 1];
      assert vertices == front + [last];
      FrontOfLasts(front, actions, s, v);
      LastsSnoc(front, actions, s, last);
      FrontSnoc(front, actions, s, last, v);
      NoLasts(front, actions, s);
    }
  }

  /** The Create or Mount at v waits for u on behalf of p, a parent of its device s. */
  ghost predicate WaitsForParent(req: Request, vertices: seq<Vertex>, actions: map<Vertex, Action>, s: Sid, p: Sid,
                                 u: Vertex)
  {
    if p !in req.lhs then
      IsFront(vertices, actions, p, u)
    else
      && s !in req.dependencyManaged
      && exists c :: c in req.ChildrenInLhs(p) && IsFront(vertices, actions, c, u) && actions[u].kind.IsDelete()
  }

  /**
   * A created or mounted device waits for the end of every new parent, and for the end of the deletion of every
   * former child of an existing one; a deleted or unmounted device is waited for by the first actions of its
   * parents.
   */
  ghost predicate IsDependency(req: Request, vertices: seq<Vertex>, actions: map<Vertex, Action>, e: Edge) {
    || (e.target in vertices && IsCreateDependency(req, vertices, actions, e))
    || (e.source in vertices && IsDeleteDependency(req, vertices, actions, e))
  }

  ghost predicate IsCreateDependency(req: Request, vertices: seq<Vertex>, actions: map<Vertex, Action>, e: Edge) {
    && e.target in actions && actions[e.target].affectsDevice && actions[e.target].kind.IsCreate()
    && exists p :: p in req.ParentsInRhs(actions[e.target].sid)
         && WaitsForParent(req, vertices, actions, actions[e.target].sid, p, e.source)
  }

  ghost predicate IsDeleteDependency(req: Request, vertices: seq<Vertex>, actions: map<Vertex, Action>, e: Edge) {
    && e.source in actions && actions[e.source].affectsDevice && actions[e.source].kind.IsDelete()
    && e.target in vertices
    && exists p :: p in req.ParentsInLhs(actions[e.source].sid) && IsFirstAction(actions, p, e.target)
  }

  lemma ParentSourcesExactly(req: Request, vertices: seq<Vertex>, actions: map<Vertex, Action>, s: Sid, p: Sid,
                             u: Vertex)
    ensures u in ParentSources(req, vertices, actions, s, p) <==> WaitsForParent(req, vertices, actions, s, p, u)
  {
    FrontOfLasts(vertices, actions, p, u);
    SiblingSourcesExactly(vertices, actions, req.ChildrenInLhs(p), u);
    forall c ensures u in SiblingSource(vertices, actions, c) <==>
                     IsFront(vertices, actions, c, u) && actions[u].kind.IsDelete()
    {
      FrontOfLasts(vertices, actions, c, u);
    }
  }

  lemma CreateEdgesExactly(req: Request, vertices: seq<Vertex>, actions: map<Vertex, Action>, v: Vertex, e: Edge)
    requires v in actions && actions[v].affectsDevice && actions[v].kind.IsCreate()
    ensures e in EdgesFor(req, vertices, actions, v) <==>
            e.target == v && IsCreateDependency(req, vertices, actions, e)
  {
    var s := actions[v].sid;
    var parents := req.ParentsInRhs(s);
    FanInMembers(CreateSources(req, vertices, actions, s, parents), v, e);
    CreateSourcesExactly(req, vertices, actions, s, parents, e.source);
    forall p ensures e.source in ParentSources(req, vertices, actions, s, p) <==>
                     WaitsForParent(req, vertices, actions, s, p, e.source)
    {
      ParentSourcesExactly(req, vertices, actions, s, p, e.source);
    }
  }

  lemma DeleteEdgesExactly(req: Request, vertices: seq<Vertex>, actions: map<Vertex, Action>, v: Vertex, e: Edge)
    requires v in actions && actions[v].affectsDevice && actions[v].kind.IsDelete()
    ensures e in EdgesFor(req, vertices, actions, v) <==>
            e.source == v && IsDeleteDependency(req, vertices, actions, e)
  {
    var parents := req.ParentsInLhs(actions[v].sid);
    FanMembers(v, DeleteTargets(vertices, actions, parents), e);
    DeleteTargetsExactly(vertices, actions, parents, e.target);
    forall p ensures e.target in Firsts(vertices, actions, p) <==>
                     e.target in vertices && IsFirstAction(actions, p, e.target)
    {
      WithSidMembers(vertices, actions, p, e.target);
      OnlyFirstsMembers(WithSid(vertices, actions, p), actions, e.target);
    }
  }

  lemma EdgesForExactly(req: Request, vertices: seq<Vertex>, actions: map<Vertex, Action>, v: Vertex, e: Edge)
    ensures e in EdgesFor(req, vertices, actions, v) <==>
            || (e.target == v && IsCreateDependency(req, vertices, actions, e))
            || (e.source == v && IsDeleteDependency(req, vertices, actions, e))
  {
    if v in actions && actions[v].affectsDevice && actions[v].kind.IsCreate() {
      CreateEdgesExactly(req, vertices, actions, v, e);
    } else if v in actions && actions[v].affectsDevice && actions[v].kind.IsDelete() {
      DeleteEdgesExactly(req, vertices, actions, v, e);
    }
  }

  /** Which edges are added for created and deleted devices: these, and no others. */
  lemma DependenciesExactly(req: Request, vertices: seq<Vertex>, actions: map<Vertex, Action>, e: Edge)
    ensures e in EdgesForAll(req, vertices, actions, vertices) <==> IsDependency(req, vertices, actions, e)
  {
    EdgesForAllExactly(req, vertices, actions, vertices, e);
    forall v ensures e in EdgesFor(req, vertices, actions, v) <==>
      || (e.target == v && IsCreateDependency(req, vertices, actions, e))
      || (e.source == v && IsDeleteDependency(req, vertices, actions, e))
    {
      EdgesForExactly(req, vertices, actions, v, e);
    }
  }

  // ----- the added edges join vertices

  lemma FirstsAreVertices(vertices: seq<Vertex>, actions: map<Vertex, Action>, s: Sid)
    ensures forall v :: v in Firsts(vertices, actions, s) ==> v in vertices
    ensures forall v :: v in Lasts(vertices, actions, s) ==> v in vertices
  {
    var list := WithSid(vertices, actions, s);
    forall v ensures v in Firsts(vertices, actions, s) ==> v in vertices
             ensures v in Lasts(vertices, actions, s) ==> v in vertices {
      WithSidMembers(vertices, actions, s, v);
      OnlyFirstsMembers(list, actions, v);
      OnlyLastsMembers(list, actions, v);
    }
  }

  lemma {:induction false} SiblingSourcesAreVertices(vertices: seq<Vertex>, actions: map<Vertex, Action>,
                                                     children: seq<Sid>)
    ensures forall v :: v in SiblingSources(vertices, actions, children) ==> v in vertices
  {
    if children != [] {
      SiblingSourcesAreVertices(vertices, actions, children[..|children| - 1]);
      FirstsAreVertices(vertices, actions, children[|children| - 1]);
    }
  }

  lemma {:induction false} CreateSourcesAreVertices(req: Request, vertices: seq<Vertex>,
                                                    actions: map<Vertex, Action>, s: Sid, parents: seq<Sid>)
    ensures forall v :: v in CreateSources(req, vertices, actions, s, parents) ==> v in vertices
  {
    if parents != [] {
      var p := parents[|parents| - 1];
      CreateSourcesAreVertices(req, vertices, actions, s, parents[..|parents| - 1]);
      FirstsAreVertices(vertices, actions, p);
      SiblingSourcesAreVertices(vertices, actions, req.ChildrenInLhs(p));
    }
  }

  /** The action does not find its device, or a new parent has no action to wait for. */
  ghost predicate HasProblem(req: Request, vertices: seq<Vertex>, actions: map<Vertex, Action>, v: Vertex) {
    MissesDevice(req, actions, v) || MissesParentAction(req, vertices, actions, v)
  }

  ghost predicate IsFirstProblem(req: Request, vertices: seq<Vertex>, actions: map<Vertex, Action>, i: nat) {
    && i < |vertices| && HasProblem(req, vertices, actions, vertices[i])
    && forall k :: 0 <= k < i ==> !HasProblem(req, vertices, actions, vertices[k])
  }

  // ----- special actions

  ghost function RootMounts(actions: map<Vertex, Action>): set<Vertex> {
    set v | v in actions && actions[v].kind.Mount? && actions[v].kind.atRoot
  }

  ghost function QuotaEnablers(actions: map<Vertex, Action>, s: Sid): set<Vertex> {
    set v | v in actions && actions[v].kind.SetQuota? && actions[v].kind.enables && actions[v].sid == s
  }

  /** r is the last vertex of the list that is marked, if one is. */
  ghost predicate IsLastOf(r: Option<Vertex>, list: seq<Vertex>, marked: set<Vertex>) {
    match r
    case None => forall v :: v in list ==> v !in marked
    case Some(v) => v in marked && exists i :: IsLastAt(list, i, v, marked)
  }

  ghost predicate IsLastAt(list: seq<Vertex>, i: nat, v: Vertex, marked: set<Vertex>) {
    i < |list| && list[i] == v && forall j :: i < j < |list| ==> list[j] !in marked
  }

  lemma LastSnoc(r: Option<Vertex>, list: seq<Vertex>, i: nat, marked: set<Vertex>)
    requires i < |list| && IsLastOf(r, list[..i], marked)
    ensures IsLastOf(if list[i] in marked then Some(list[i]) else r, list[..i + 1], marked)
  {
    assert list[..i + 1] == list[..i] + [list[i]];
    if list[i] in marked {
      assert IsLastAt(list[..i + 1], i, list[i], marked);
    } else if r.Some? {
      var k :| IsLastAt(list[..i], k, r.value, marked);
      assert IsLastAt(list[..i + 1], k, r.value, marked);
    }
  }

  function Cached(cache: map<Sid, seq<Vertex>>, s: Sid): seq<Vertex> {
    if s in cache then cache[s] else []
  }

  function Noted(noted: map<Sid, Vertex>, s: Sid): Option<Vertex> {
    if s in noted then Some(noted[s]) else None
  }

  /** What one more vertex does to the cache and to the noted quota actions. */
  lemma SpecialRound(vertices: seq<Vertex>, actions: map<Vertex, Action>, i: nat, cache: map<Sid, seq<Vertex>>,
                     noted: map<Sid, Vertex>)
    requires i < |vertices| && vertices[i] in actions
    requires forall s :: Cached(cache, s) == WithSid(vertices[..i], actions, s)
    requires forall s :: IsLastOf(Noted(noted, s), vertices[..i], QuotaEnablers(actions, s))
    ensures var v, action := vertices[i], actions[vertices[i]];
      var cache' := if action.affectsDevice then cache[action.sid := Cached(cache, action.sid) + [v]] else cache;
      var noted' := if action.kind.SetQuota? && action.kind.enables then noted[action.sid := v] else noted;
      && (forall s :: Cached(cache', s) == WithSid(vertices[..i + 1], actions, s))
      && (forall s :: IsLastOf(Noted(noted', s), vertices[..i + 1], QuotaEnablers(actions, s)))
  {
    var v, action := vertices[i], actions[vertices[i]];
    var cache' := if action.affectsDevice then cache[action.sid := Cached(cache, action.sid) + [v]] else cache;
    var noted' := if action.kind.SetQuota? && action.kind.enables then noted[action.sid := v] else noted;
    forall s ensures Cached(cache', s) == WithSid(vertices[..i + 1], actions, s) {
      WithSidSnoc(vertices, actions, s, i);
    }
    forall s ensures IsLastOf(Noted(noted', s), vertices[..i + 1], QuotaEnablers(actions, s)) {
      LastSnoc(Noted(noted, s), vertices, i, QuotaEnablers(actions, s));
      assert Noted(noted', s) == if v in QuotaEnablers(actions, s) then Some(v) else Noted(noted, s);
    }
  }
}
