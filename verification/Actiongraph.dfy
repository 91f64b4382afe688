/**
 * The actiongraph as a mutable object: a list of vertices, a list of edges in insertion order (parallel
 * edges allowed), and the action held by every vertex.
 */
module Actiongraphs {

  import opened Wrappers
  import opened Reachability
  import opened Actions
  import opened Sequences
  import opened KahnOrder
  import opened KahnSorting
  import opened Contraction
  import opened Merging
  import opened MountPaths
  import opened DeviceChanges
  import opened Priorities
  import opened Dependencies
  import opened Chaining

  /**
   * What can go wrong.  Undefined: a removed vertex would be visited, or a list changed while it is iterated
   * over, so that the program has no defined behaviour from there on.
   */
  datatype Failure = NotADag | NoParentCreateAction | DeviceNotFound | Undefined

  datatype Result<+T> = Ok(value: T) | Err(error: Failure)

  /** The contents of an actiongraph at some moment. */
  datatype Snapshot = Snapshot(vertices: seq<Vertex>, edges: seq<Edge>, actions: map<Vertex, Action>)

  datatype ActionsFilter = OnlyFirst | OnlyLast

  /** How the dependency stage fails at an action. */
  function ProblemOf(req: Request, actions: map<Vertex, Action>, v: Vertex): Failure {
    if MissesDevice(req, actions, v) then DeviceNotFound else NoParentCreateAction
  }

  /** The contraction of the sync-only actions keeps every ordering between the others, cycles included. */
  lemma ContractionKeepsOrder(vertices: seq<Vertex>, actions: map<Vertex, Action>, edges: seq<Edge>)
    requires forall v :: v in vertices <==> v in actions
    ensures var after := ContractAll(edges, SyncList(vertices, actions));
      SameReach(Survivors(vertices, Syncs(actions)), Support(after), Support(edges))
  {
    SurvivorsMembers(vertices, Syncs(actions));
    SyncListMembers(vertices, actions);
    forall u, w | u in Survivors(vertices, Syncs(actions)) && w in Survivors(vertices, Syncs(actions))
      ensures Reaches(Support(ContractAll(edges, SyncList(vertices, actions))), u, w) <==> Reaches(Support(edges), u, w)
    {
      ContractAllKeepsReach(edges, SyncList(vertices, actions), u, w);
    }
  }

  class Actiongraph {

    var vertices: seq<Vertex>
    var edges: seq<Edge>
    var actions: map<Vertex, Action>
    var next: Vertex  // descriptors from here on are unused
    var priorities: map<Vertex, int>  // set priorities; the others are still 0
    var cacheForActionsWithSid: map<Sid, seq<Vertex>>
    var mountRootFilesystem: Option<Vertex>
    var btrfsEnableQuota: map<Sid, Vertex>

    ghost predicate Valid()
      reads this
    {
      && Distinct(vertices)
      && (forall v :: v in vertices <==> v in actions)
      && (forall v :: v in vertices ==> v < next)
      && (forall e :: e in edges ==> e.source in vertices && e.target in vertices)
    }

    constructor ()
      ensures Valid() && vertices == [] && edges == [] && next == 0 && priorities == map[] && NoSpecialActions()
    {
      vertices, edges, actions, next := [], [], map[], 0;
      priorities, cacheForActionsWithSid, mountRootFilesystem, btrfsEnableQuota := map[], map[], None, map[];
    }

    method AddVertex(action: Action) returns (v: Vertex)
      requires Valid()
      modifies this`vertices, this`actions, this`next
      ensures Valid()
      ensures v == old(next) && next == v + 1
      ensures vertices == old(vertices) + [v] && actions == old(actions)[v := action]
    {
      v := next;
      assert v !in vertices;
      vertices, actions, next := vertices + [v], actions[v := action], next + 1;
    }

    method AddEdge(a: Vertex, b: Vertex)
      requires Valid() && a in vertices && b in vertices
      modifies this`edges
      ensures Valid()
      ensures edges == old(edges) + [Edge(a, b)]
    {
      edges := edges + [Edge(a, b)];
    }

    // ----- chains

    /** Adds one vertex, with an edge from the one before it if there is one. */
    method AddLinked(linked: bool, v1: Vertex, action: Action) returns (v2: Vertex)
      requires Valid() && (linked ==> v1 in vertices)
      modifies this`vertices, this`edges, this`actions, this`next
      ensures Valid()
      ensures v2 == old(next) && next == v2 + 1 && vertices == old(vertices) + [v2]
      ensures actions == old(actions)[v2 := action]
      ensures edges == old(edges) + (if linked then [Edge(v1, v2)] else [])
    {
      v2 := AddVertex(action);
      if linked {
        AddEdge(v1, v2);
      }
    }

    /** Adds the actions as new vertices, linked in order; sets the first and last flags. */
    method AddActionChain(list: seq<Action>)
      requires Valid()
      modifies this`vertices, this`edges, this`actions, this`next
      ensures Valid()
      ensures next == old(next) + |list| && vertices == old(vertices) + Numbers(old(next), |list|)
      ensures actions == LayOn(old(actions), old(next), Chain(list, LastOf(list)), |list|)
      ensures edges == old(edges) + ChainEdges(old(next), |list|)
    {
      ghost var was, base := Snapshot(vertices, edges, actions), next;
      var v1: Vertex := 0;
      for i := 0 to |list|
        invariant LaidUpTo(was, base, list, i)
        invariant i > 0 ==> v1 == base + i - 1
      {
        v1 := AddNext(was, base, list, i, v1);
      }
    }

    /** The first i actions of the list have been added, from base on. */
    ghost predicate LaidUpTo(was: Snapshot, base: Vertex, list: seq<Action>, i: nat)
      requires i <= |list|
      reads this
    {
      && Valid()
      && next == base + i && vertices == was.vertices + Numbers(base, i)
      && actions == LayOn(was.actions, base, Chain(list, LastOf(list)), i)
      && edges == was.edges + ChainEdges(base, i)
    }

    /** One more action, linked from the one before. */
    method AddNext(ghost was: Snapshot, ghost base: Vertex, list: seq<Action>, i: nat, v1: Vertex) returns (v2: Vertex)
      requires i < |list| && LaidUpTo(was, base, list, i) && (i > 0 ==> v1 == base + i - 1)
      modifies this`vertices, this`edges, this`actions, this`next
      ensures LaidUpTo(was, base, list, i + 1) && v2 == base + i
    {
      assert i > 0 ==> vertices[|vertices| - 1] == v1;
      v2 := AddLinked(i != 0, v1, list[i].(first := i == 0, last := i == |list| - 1));
    }

    static function LastOf(list: seq<Action>): nat { if list == [] then 0 else |list| - 1 }

    /** What one device or holder contributes; an encryption in crypttab moves `last` afterwards. */
    method AddDeviceChain(chain: Chain)
      requires Valid()
      modifies this`vertices, this`edges, this`actions, this`next
      ensures Valid()
      ensures next == old(next) + chain.Size() && vertices == old(vertices) + Numbers(old(next), chain.Size())
      ensures actions == LayOn(old(actions), old(next), chain, chain.Size())
      ensures edges == old(edges) + ChainEdges(old(next), chain.Size())
    {
      match chain
      case Loose(action) =>
        var _ := AddVertex(action);
      case Chain(list, lastAt) =>
        ghost var base, before := next, actions;
        AddActionChain(list);
        if lastAt + 1 != |list| {
          MoveLast(list, lastAt, base, before);
        }
    }

    method MoveLast(list: seq<Action>, lastAt: nat, ghost base: Vertex, ghost before: map<Vertex, Action>)
      requires Valid() && next == base + |list|
      requires actions == LayOn(before, base, Chain(list, LastOf(list)), |list|)
      modifies this`actions
      ensures Valid()
      ensures actions == LayOn(before, base, Chain(list, lastAt), |list|)
    {
      ghost var was := actions;
      for i := 0 to |list|
        invariant actions == LayOn(was, base, Chain(list, lastAt), i)
      {
        var v := next - |list| + i;
        MoveRound(before, base, list, LastOf(list), lastAt, i);
        actions := actions[v := actions[v].(last := i == lastAt)];
      }
      LayOnMembers(was, base, Chain(list, lastAt), |list|);
      LayOnMembers(before, base, Chain(list, LastOf(list)), |list|);
      LayOnTwice(before, base, Chain(list, LastOf(list)), Chain(list, lastAt));
    }

    /** Links existing vertices in the given order. */
    method AddVertexChain(list: seq<Vertex>)
      requires Valid() && forall v :: v in list ==> v in vertices
      modifies this`edges
      ensures Valid()
      ensures edges == old(edges) + PathEdges(list)
    {
      if |list| > 1 {
        var vertex := list[0];
        for i := 1 to |list|
          invariant Valid() && vertex == list[i - 1]
          invariant edges == old(edges) + PathEdges(list[..i])
        {
          AddEdge(vertex, list[i]);
          vertex := list[i];
          assert list[..i + 1][..i] == list[..i];
        }
        assert list[..|list|] == list;
      }
    }

    /** Links groups of vertices: every member of a non-empty group to every member of the next one. */
    method AddGroupChain(groups: seq<seq<Vertex>>)
      requires Valid() && forall g, v :: g in groups && v in g ==> v in vertices
      modifies this`edges
      ensures Valid()
      ensures edges == old(edges) + GroupEdges(NonEmpty(groups))
    {
      var nonEmpty: seq<seq<Vertex>> := [];
      for i := 0 to |groups|
        invariant nonEmpty == NonEmpty(groups[..i])
        invariant forall g :: g in nonEmpty ==> g in groups
      {
        assert groups[..i + 1][..i] == groups[..i];
        if groups[i] != [] {
          nonEmpty := nonEmpty + [groups[i]];
        }
      }
      assert groups[..|groups|] == groups;
      if |nonEmpty| > 1 {
        for i := 1 to |nonEmpty|
          invariant Valid()
          invariant edges == old(edges) + GroupEdges(nonEmpty[..i])
        {
          assert nonEmpty[i - 1] in groups && nonEmpty[i] in groups;
          GroupsRound(old(edges), nonEmpty, i);
          AddCross(nonEmpty[i - 1], nonEmpty[i]);
        }
        assert nonEmpty[..|nonEmpty|] == nonEmpty;
      }
    }

    /** The two nested loops: from every left vertex to every right vertex. */
    method AddCross(lefts: seq<Vertex>, rights: seq<Vertex>)
      requires Valid()
      requires forall v :: v in lefts ==> v in vertices
      requires forall v :: v in rights ==> v in vertices
      modifies this`edges
      ensures Valid()
      ensures edges == old(edges) + Cross(lefts, rights)
    {
      for i := 0 to |lefts|
        invariant Valid()
        invariant edges == old(edges) + Cross(lefts[..i], rights)
      {
        AddFan(lefts[i], rights);
        assert lefts[..i + 1][..i] == lefts[..i];
      }
      assert lefts[..|lefts|] == lefts;
    }

    method AddFan(left: Vertex, rights: seq<Vertex>)
      requires Valid() && left in vertices
      requires forall v :: v in rights ==> v in vertices
      modifies this`edges
      ensures Valid()
      ensures edges == old(edges) + Fan(left, rights)
    {
      for j := 0 to |rights|
        invariant Valid()
        invariant edges == old(edges) + Fan(left, rights[..j])
      {
        AddEdge(left, rights[j]);
        assert Fan(left, rights[..j + 1]) == Fan(left, rights[..j]) + [Edge(left, rights[j])];
      }
      assert rights[..|rights|] == rights;
    }

    method AddFanIn(lefts: seq<Vertex>, right: Vertex)
      requires Valid() && right in vertices
      requires forall v :: v in lefts ==> v in vertices
      modifies this`edges
      ensures Valid()
      ensures edges == old(edges) + FanIn(lefts, right)
    {
      for j := 0 to |lefts|
        invariant Valid()
        invariant edges == old(edges) + FanIn(lefts[..j], right)
      {
        AddEdge(lefts[j], right);
        assert FanIn(lefts[..j + 1], right) == FanIn(lefts[..j], right) + [Edge(lefts[j], right)];
      }
      assert lefts[..|lefts|] == lefts;
    }

    // ----- removing vertices

    /** clear_vertex and remove_vertex. */
    method RemoveVertex(v: Vertex)
      requires Valid() && v in vertices
      modifies this`vertices, this`edges, this`actions
      ensures Valid()
      ensures vertices == Survivors(old(vertices), {v})
      ensures edges == Without(old(edges), v)
      ensures actions == old(actions) - {v}
    {
      SurvivorsMembers(vertices, {v});
      forall e | e in Without(edges, v) ensures e in edges && e.source != v && e.target != v {
        WithoutMembers(edges, v, e);
      }
      vertices, edges, actions := Survivors(vertices, {v}), Without(edges, v), actions - {v};
    }

    /** The list of all duplicate pairs: an earlier and a later vertex. */
    method FindDuplicates() returns (duplicates: seq<Pair>)
      ensures duplicates == PairsBefore(vertices, actions, |vertices|)
    {
      duplicates := [];
      for i := 0 to |vertices|
        invariant duplicates == PairsBefore(vertices, actions, i)
      {
        for j := i + 1 to |vertices|
          invariant duplicates == PairsBefore(vertices, actions, i) + PairsWith(vertices, actions, i, j)
        {
          if Same(actions, vertices[i], vertices[j]) {
            duplicates := duplicates + [(vertices[i], vertices[j])];
          }
        }
      }
    }

    /**
     * Merges duplicate mount actions, and duplicate unmount actions, into the first of them.  Three of a kind
     * would make the loop visit a vertex that it has removed.
     */
    method RemoveDuplicates() returns (defined: bool)
      requires Valid()
      modifies this`vertices, this`edges, this`actions
      ensures Valid()
      ensures defined <==> AtMostTwo(old(actions))
      ensures defined ==> vertices == Survivors(old(vertices), old(Merged(vertices, actions)).Keys)
      ensures defined ==> Support(edges) == Quotient(old(Support(edges)), old(Merged(vertices, actions)))
      ensures defined ==> actions == old(actions) - old(Merged(vertices, actions)).Keys
    {
      var duplicates := FindDuplicates();
      ghost var was := Snapshot(vertices, edges, actions);
      RevisitsExactly(was.vertices, was.actions);
      NothingMerged(vertices, actions, edges);
      defined := MergePairs(was, duplicates);
      if defined {
        MergedIsQuotient(was.vertices, was.actions, was.edges);
      }
    }

    method MergePairs(ghost was: Snapshot, duplicates: seq<Pair>) returns (defined: bool)
      requires Distinct(was.vertices) && duplicates == PairsBefore(was.vertices, was.actions, |was.vertices|)
      requires MergedUpTo(was, [])
      modifies this`vertices, this`edges, this`actions
      ensures Valid()
      ensures defined <==> NeverRevisits(duplicates)
      ensures defined ==> MergedUpTo(was, duplicates)
    {
      assert duplicates[..0] == [];
      for k := 0 to |duplicates|
        invariant NotYetRevisited(duplicates, k)
        invariant MergedUpTo(was, duplicates[..k])
      {
        defined := MergePair(was, duplicates, k);
        if !defined {
          return;
        }
      }
      assert duplicates[..|duplicates|] == duplicates;
      NotYetMeans(duplicates, |duplicates|);
      defined := true;
    }

    /** The pairs have been merged into what was there before. */
    ghost predicate MergedUpTo(was: Snapshot, pairs: seq<Pair>)
      reads this
    {
      && Valid()
      && vertices == Survivors(was.vertices, Seconds(pairs))
      && edges == MergeAll(was.edges, pairs)
      && actions == was.actions - Seconds(pairs)
    }

    /** Merges one pair, unless one of its vertices is gone. */
    method MergePair(ghost was: Snapshot, duplicates: seq<Pair>, k: nat) returns (defined: bool)
      requires Distinct(was.vertices) && duplicates == PairsBefore(was.vertices, was.actions, |was.vertices|)
      requires k < |duplicates| && MergedUpTo(was, duplicates[..k])
      modifies this`vertices, this`edges, this`actions
      ensures Valid()
      ensures defined <==> !NamesGone(duplicates, k)
      ensures defined ==> MergedUpTo(was, duplicates[..k + 1])
    {
      MergeRound(was.vertices, was.actions, was.edges, duplicates, k);
      MinusTwice(was.actions, Seconds(duplicates[..k]), {duplicates[k].1});
      defined := duplicates[k].0 in vertices && duplicates[k].1 in vertices;
      if defined {
        MergeInto(duplicates[k].0, duplicates[k].1);
      }
    }

    /** Copies dup's dependencies to keep and removes dup. */
    method MergeInto(keep: Vertex, dup: Vertex)
      requires Valid() && keep in vertices && dup in vertices && keep != dup
      modifies this`vertices, this`edges, this`actions
      ensures Valid()
      ensures vertices == Survivors(old(vertices), {dup})
      ensures edges == MergeList(old(edges), keep, dup)
      ensures actions == old(actions) - {dup}
    {
      NeighboursAreVertices(dup);
      AddFanIn(Parents(edges, dup), keep);
      NeighboursAreVertices(dup);
      AddFan(keep, Children(edges, dup));
      RemoveVertex(dup);
    }

    lemma NeighboursAreVertices(v: Vertex)
      requires Valid()
      ensures forall u :: u in Parents(edges, v) ==> u in vertices
      ensures forall u :: u in Children(edges, v) ==> u in vertices
    {
      forall u ensures u in Parents(edges, v) ==> u in vertices
               ensures u in Children(edges, v) ==> u in vertices {
        ParentsAreSources(edges, v, u);
        ChildrenAreTargets(edges, v, u);
      }
    }

    method FindOnlySyncs() returns (onlySyncs: seq<Vertex>)
      requires Valid()
      ensures onlySyncs == SyncList(vertices, actions)
    {
      onlySyncs := [];
      for i := 0 to |vertices|
        invariant onlySyncs == SyncList(vertices[..i], actions)
      {
        assert vertices[..i + 1][..i] == vertices[..i];
        if actions[vertices[i]].onlySync {
          onlySyncs := onlySyncs + [vertices[i]];
        }
      }
      assert vertices[..|vertices|] == vertices;
    }

    /**
     * Joins the parents of every sync-only action to its children and removes the action.  With a self-loop the
     * lists of parents and children would grow while they are iterated over; that happens exactly if some cycle
     * consists of sync-only actions.
     */
    method RemoveOnlySyncs() returns (defined: bool)
      requires Valid()
      modifies this`vertices, this`edges, this`actions
      ensures Valid()
      ensures defined <==> NoCycleInside(Support(old(edges)), Syncs(old(actions)))
      ensures defined ==> vertices == Survivors(old(vertices), Syncs(old(actions)))
      ensures defined ==> edges == ContractAll(old(edges), SyncList(old(vertices), old(actions)))
      ensures defined ==> actions == old(actions) - Syncs(old(actions))
      ensures defined ==> SameReach(vertices, Support(edges), Support(old(edges)))
    {
      ContractionKeepsOrder(vertices, actions, edges);
      var onlySyncs := FindOnlySyncs();
      SyncListMembers(vertices, actions);
      assert Elems(onlySyncs) == Syncs(actions);
      NeverLoopsExactly(edges, onlySyncs);
      defined := ContractVertices(onlySyncs);
    }

    method ContractVertices(list: seq<Vertex>) returns (defined: bool)
      requires Valid() && Distinct(list) && forall v :: v in list ==> v in vertices
      modifies this`vertices, this`edges, this`actions
      ensures Valid()
      ensures defined <==> NeverLoops(old(edges), list)
      ensures defined ==> vertices == Survivors(old(vertices), Elems(list))
      ensures defined ==> edges == ContractAll(old(edges), list)
      ensures defined ==> actions == old(actions) - Elems(list)
    {
      ghost var all, acts, es := vertices, actions, edges;
      SurvivorsOfOthers(all, {});
      assert Elems(list[..0]) == {};
      for k := 0 to |list|
        invariant Valid()
        invariant forall m :: 0 <= m < k ==> Edge(list[m], list[m]) !in ContractAll(es, list[..m])
        invariant vertices == Survivors(all, Elems(list[..k]))
        invariant edges == ContractAll(es, list[..k])
        invariant actions == acts - Elems(list[..k])
      {
        ContractRound(all, es, list, k);
        MinusTwice(acts, Elems(list[..k]), {list[k]});
        if Edge(list[k], list[k]) in edges {
          return false;
        }
        ContractVertex(list[k]);
      }
      assert list[..|list|] == list;
      defined := true;
    }

    method ContractVertex(v: Vertex)
      requires Valid() && v in vertices && Edge(v, v) !in edges
      modifies this`vertices, this`edges, this`actions
      ensures Valid()
      ensures vertices == Survivors(old(vertices), {v})
      ensures edges == ContractList(old(edges), v)
      ensures actions == old(actions) - {v}
    {
      NeighboursAreVertices(v);
      AddCross(Parents(edges, v), Children(edges, v));
      RemoveVertex(v);
    }

    // ----- actions of a device

    ghost predicate NoSpecialActions()
      reads this
    {
      cacheForActionsWithSid == map[] && mountRootFilesystem == None && btrfsEnableQuota == map[]
    }

    /**
     * Fills the cache with every device's actions in vertex order, and notes the last mount at the root and for
     * every btrfs the last action that switches its quota on.
     */
    method SetSpecialActions()
      requires Valid() && NoSpecialActions()
      modifies this`cacheForActionsWithSid, this`mountRootFilesystem, this`btrfsEnableQuota
      ensures CacheIsCurrent()
      ensures IsLastOf(mountRootFilesystem, vertices, RootMounts(actions))
      ensures forall s :: IsLastOf(Noted(btrfsEnableQuota, s), vertices, QuotaEnablers(actions, s))
    {
      for i := 0 to |vertices|
        invariant forall s :: Cached(cacheForActionsWithSid, s) == WithSid(vertices[..i], actions, s)
        invariant IsLastOf(mountRootFilesystem, vertices[..i], RootMounts(actions))
        invariant forall s :: IsLastOf(Noted(btrfsEnableQuota, s), vertices[..i], QuotaEnablers(actions, s))
      {
        SpecialRound(vertices, actions, i, cacheForActionsWithSid, btrfsEnableQuota);
        LastSnoc(mountRootFilesystem, vertices, i, RootMounts(actions));
        var v, action := vertices[i], actions[vertices[i]];
        if action.affectsDevice {
          var s := action.sid;
          cacheForActionsWithSid := cacheForActionsWithSid[s := Cached(cacheForActionsWithSid, s) + [v]];
        }
        if action.kind.Mount? && action.kind.atRoot {
          mountRootFilesystem := Some(v);
        }
        if action.kind.SetQuota? && action.kind.enables {
          btrfsEnableQuota := btrfsEnableQuota[action.sid := v];
        }
      }
      assert vertices[..|vertices|] == vertices;
    }

    ghost predicate CacheIsCurrent()
      reads this
    {
      forall s {:trigger Cached(cacheForActionsWithSid, s)} ::
        Cached(cacheForActionsWithSid, s) == WithSid(vertices, actions, s)
    }

    method ActionsWithSid(s: Sid, filter: ActionsFilter) returns (list: seq<Vertex>)
      requires Valid() && CacheIsCurrent()
      ensures list == if filter.OnlyFirst? then Firsts(vertices, actions, s) else Lasts(vertices, actions, s)
    {
      var found := Cached(cacheForActionsWithSid, s);
      forall v | v in found ensures v in actions {
        WithSidMembers(vertices, actions, s, v);
      }
      list := Filtered(found, actions, filter);
    }

    static method Filtered(found: seq<Vertex>, actions: map<Vertex, Action>, filter: ActionsFilter)
      returns (list: seq<Vertex>)
      requires forall v :: v in found ==> v in actions
      ensures list == if filter.OnlyFirst? then OnlyFirsts(found, actions) else OnlyLasts(found, actions)
    {
      list := [];
      for i := 0 to |found|
        invariant list == if filter.OnlyFirst? then OnlyFirsts(found[..i], actions) else OnlyLasts(found[..i], actions)
      {
        assert found[..i + 1][..i] == found[..i];
        var action := actions[found[i]];
        if filter == OnlyFirst && !action.first { continue; }
        if filter == OnlyLast && !action.last { continue; }
        list := list + [found[i]];
      }
      assert found[..|found|] == found;
    }

    // ----- collecting the actions

    /** The vertices and edges are exactly those of the chains added so far. */
    ghost predicate Built(chains: seq<Chain>)
      reads this
    {
      && Valid()
      && next == End(chains) && vertices == Numbers(0, End(chains))
      && actions == ActionsOf(chains) && edges == EdgesOf(chains)
    }

    /** One more chain: more are the chains with it. */
    method AddOneChain(ghost more: seq<Chain>, chain: Chain)
      requires Valid() && End(more) == next + chain.Size()
      requires Numbers(0, End(more)) == vertices + Numbers(next, chain.Size())
      requires ActionsOf(more) == LayOn(actions, next, chain, chain.Size())
      requires EdgesOf(more) == edges + ChainEdges(next, chain.Size())
      modifies this`vertices, this`edges, this`actions, this`next
      ensures Built(more)
    {
      AddDeviceChain(chain);
    }

    method AddChains(ghost done: seq<Chain>, list: seq<Chain>)
      requires Built(done)
      modifies this`vertices, this`edges, this`actions, this`next
      ensures Built(done + list)
    {
      assert done + list[..0] == done;
      for i := 0 to |list|
        invariant Built(done + list[..i])
      {
        assert done + list[..i + 1] == done + list[..i] + [list[i]];
        Snoc(done + list[..i], list[i]);
        SnocNumbers(done + list[..i], list[i]);
        AddOneChain(done + list[..i] + [list[i]], list[i]);
      }
      assert list[..|list|] == list;
    }

    /** get_device_actions and get_holder_actions: created devices first, then common, deleted, holders. */
    method GetActions(req: Request)
      requires Built([])
      modifies this`vertices, this`edges, this`actions, this`next
      ensures Built(AllChains(req))
    {
      var sids := Missing(req.rhs, req.lhs) + Common(req.lhs, req.rhs) + Missing(req.lhs, req.rhs);
      for i := 0 to |sids|
        invariant Built(ChainsOfAll(req, sids[..i]))
      {
        AddChains(ChainsOfAll(req, sids[..i]), req.ChainsOf(sids[i]));
        assert sids[..i + 1][..i] == sids[..i];
      }
      assert sids[..|sids|] == sids;
      AddChains(ChainsOfAll(req, sids), req.holderChains);
    }

    // ----- dependencies

    /** What a Create or Mount of a device waits for. */
    method AddCreateDependencies(req: Request, v: Vertex) returns (ok: bool)
      requires Valid() && CacheIsCurrent() && v in vertices
      requires actions[v].affectsDevice && actions[v].kind.IsCreate()
      modifies this`edges
      ensures Valid()
      ensures ok <==> !MissesParentAction(req, vertices, actions, v)
      ensures ok ==> edges == old(edges) + EdgesFor(req, vertices, actions, v)
    {
      var s := actions[v].sid;
      var parents := req.ParentsInRhs(s);
      ok := AddAllParentDependencies(req, s, parents, v);
      AllHaveActionsMeans(req, vertices, actions, parents);
    }

    method AddAllParentDependencies(req: Request, s: Sid, parents: seq<Sid>, v: Vertex) returns (ok: bool)
      requires Valid() && CacheIsCurrent() && v in vertices
      modifies this`edges
      ensures Valid()
      ensures ok <==> AllHaveActions(req, vertices, actions, parents)
      ensures ok ==> edges == old(edges) + FanIn(CreateSources(req, vertices, actions, s, parents), v)
    {
      ok := true;
      for i := 0 to |parents|
        invariant Valid()
        invariant ok <==> AllHaveActions(req, vertices, actions, parents[..i])
        invariant ok ==> edges == old(edges) + FanIn(CreateSources(req, vertices, actions, s, parents[..i]), v)
      {
        CreateRound(req, vertices, actions, old(edges), s, parents, i, v);
        AllHaveActionsRound(req, vertices, actions, parents, i);
        if ok {
          ok := AddParentDependencies(req, s, parents[i], v);
        }
      }
      assert parents[..|parents|] == parents;
    }

    /** On behalf of one parent: its creation if it is new, else the deletion of its former children. */
    method AddParentDependencies(req: Request, s: Sid, parent: Sid, v: Vertex) returns (ok: bool)
      requires Valid() && CacheIsCurrent() && v in vertices
      modifies this`edges
      ensures Valid()
      ensures ok <==> HasParentAction(req, vertices, actions, parent)
      ensures ok ==> edges == old(edges) + FanIn(ParentSources(req, vertices, actions, s, parent), v)
    {
      ok := true;
      if parent !in req.lhs {
        var tmp := ActionsWithSid(parent, OnlyLast);
        if tmp == [] {
          return false;
        }
        FirstsAreVertices(vertices, actions, parent);
        AddEdge(tmp[0], v);
        assert FanIn([tmp[0]], v) == [Edge(tmp[0], v)];
      } else if s !in req.dependencyManaged {
        AddSiblingDependencies(req.ChildrenInLhs(parent), v);
      }
    }

    /** All former children of the parent must be deleted first. */
    method AddSiblingDependencies(children: seq<Sid>, v: Vertex)
      requires Valid() && CacheIsCurrent() && v in vertices
      modifies this`edges
      ensures Valid()
      ensures edges == old(edges) + FanIn(SiblingSources(vertices, actions, children), v)
    {
      for j := 0 to |children|
        invariant Valid()
        invariant edges == old(edges) + FanIn(SiblingSources(vertices, actions, children[..j]), v)
      {
        ghost var before := edges;
        SiblingRound(vertices, actions, old(edges), children, j, v);
        var tmp := ActionsWithSid(children[j], OnlyLast);
        FirstsAreVertices(vertices, actions, children[j]);
        if tmp != [] && actions[tmp[0]].kind.IsDelete() {
          AddEdge(tmp[0], v);
          assert FanIn([tmp[0]], v) == [Edge(tmp[0], v)];
        } else {
          assert FanIn([], v) == [] && before == before + [];
        }
        assert edges == before + FanIn(SiblingSource(vertices, actions, children[j]), v);
      }
      assert children[..|children|] == children;
    }

    /** What a Delete or Unmount of a device must precede. */
    method AddDeleteDependencies(req: Request, v: Vertex)
      requires Valid() && CacheIsCurrent() && v in vertices
      requires actions[v].affectsDevice && actions[v].kind.IsDelete()
      modifies this`edges
      ensures Valid()
      ensures edges == old(edges) + EdgesFor(req, vertices, actions, v)
    {
      var parents := req.ParentsInLhs(actions[v].sid);
      for i := 0 to |parents|
        invariant Valid()
        invariant edges == old(edges) + Fan(v, DeleteTargets(vertices, actions, parents[..i]))
      {
        DeleteRound(vertices, actions, old(edges), parents, i, v);
        var firsts := ActionsWithSid(parents[i], OnlyFirst);
        FirstsAreVertices(vertices, actions, parents[i]);
        AddFan(v, firsts);
      }
      assert parents[..|parents|] == parents;
    }

    /**
     * The dependency stage for creates and deletes, in vertex order, followed by the edges other parts
     * contribute.
     */
    method AddDependencies(req: Request, external: seq<Edge>) returns (r: Result<()>)
      requires Valid() && CacheIsCurrent()
      modifies this`edges
      ensures Valid()
      ensures r.Ok? ==> (forall e :: e in edges <==>
        e in old(edges) || e in EdgesForAll(req, vertices, actions, vertices)
        || (e in external && e.source in vertices && e.target in vertices))
      ensures r.Ok? <==> forall v :: v in vertices ==> !HasProblem(req, vertices, actions, v)
      ensures r.Err? ==> exists i: nat ::
        IsFirstProblem(req, vertices, actions, i) && r.error == ProblemOf(req, actions, vertices[i])
    {
      for i := 0 to |external|
        invariant Valid()
        invariant forall e :: e in edges <==>
          e in old(edges) || (e in external[..i] && e.source in vertices && e.target in vertices)
      {
        if external[i].source in vertices && external[i].target in vertices {
          AddEdge(external[i].source, external[i].target);
        }
      }
      r := AddDeviceDependencies(req);
    }

    method AddDeviceDependencies(req: Request) returns (r: Result<()>)
      requires Valid() && CacheIsCurrent()
      modifies this`edges
      ensures Valid()
      ensures r.Ok? ==> edges == old(edges) + EdgesForAll(req, vertices, actions, vertices)
      ensures r.Ok? <==> forall v :: v in vertices ==> !HasProblem(req, vertices, actions, v)
      ensures r.Err? ==> exists i: nat ::
        IsFirstProblem(req, vertices, actions, i) && r.error == ProblemOf(req, actions, vertices[i])
    {
      for i := 0 to |vertices|
        invariant Valid()
        invariant edges == old(edges) + EdgesForAll(req, vertices, actions, vertices[..i])
        invariant forall k :: 0 <= k < i ==> !HasProblem(req, vertices, actions, vertices[k])
      {
        EdgesRound(req, vertices, actions, old(edges), vertices, i);
        r := AddDependenciesOf(req, vertices[i]);
        if r.Err? {
          assert IsFirstProblem(req, vertices, actions, i);
          return;
        }
      }
      assert vertices[..|vertices|] == vertices;
      r := Ok(());
    }

    /** What one action waits for or must precede. */
    method AddDependenciesOf(req: Request, v: Vertex) returns (r: Result<()>)
      requires Valid() && CacheIsCurrent() && v in vertices
      modifies this`edges
      ensures Valid()
      ensures r.Ok? <==> !HasProblem(req, vertices, actions, v)
      ensures r.Ok? ==> edges == old(edges) + EdgesFor(req, vertices, actions, v)
      ensures r.Err? ==> r.error == ProblemOf(req, actions, v)
    {
      if MissesDevice(req, actions, v) {
        return Err(DeviceNotFound);
      }
      if actions[v].affectsDevice && actions[v].kind.IsCreate() {
        var ok := AddCreateDependencies(req, v);
        if !ok {
          return Err(NoParentCreateAction);
        }
      } else if actions[v].affectsDevice && actions[v].kind.IsDelete() {
        AddDeleteDependencies(req, v);
      } else {
        assert edges == edges + [];
      }
      r := Ok(());
    }

    // ----- mounts

    /** The recorded path closest above child, by cutting off one component after the other. */
    method FindMountParent(mounts: map<string, Vertex>, child: string) returns (r: Option<string>)
      ensures r.Some? ==> IsNearest(mounts.Keys, r.value, child)
      ensures r.None? ==> forall a :: a in mounts ==> !IsAncestor(a, child)
    {
      var mount := child;
      while mount != "/"
        invariant forall a :: a in mounts ==> (IsAncestor(a, child) <==> IsAncestor(a, mount))
        decreases |mount|
      {
        var pos := LastSlash(mount);
        if pos == -1 {
          forall a | a in mounts ensures !IsAncestor(a, child) {
            if IsAncestor(a, mount) {
              AncestorHasSlash(a, mount);
            }
          }
          return None;
        }
        forall a {
          AncestorStep(a, mount);
        }
        mount := mount[..pos];
        if mount == "" {
          mount := "/";
        }
        if mount in mounts {
          return Some(mount);
        }
      }
      return None;
    }

    /** Orders nested mounts outer before inner and nested unmounts inner before outer. */
    method AddMountDependencies()
      requires Valid()
      modifies this`edges
      ensures Valid()
      ensures forall e :: e in edges <==>
        || e in old(edges)
        || IsMountLink(RecordedMounts(vertices, actions), e)
        || IsMountLink(RecordedUnmounts(vertices, actions), Edge(e.target, e.source))
    {
      var mounts, unmounts := RecordMounts();
      RecordedAreVertices(vertices, actions);
      LinkMounts(mounts, false);
      LinkMounts(unmounts, true);
    }

    method RecordMounts() returns (mounts: map<string, Vertex>, unmounts: map<string, Vertex>)
      requires Valid()
      ensures mounts == RecordedMounts(vertices, actions) && unmounts == RecordedUnmounts(vertices, actions)
    {
      mounts, unmounts := map[], map[];
      for i := 0 to |vertices|
        invariant mounts == RecordedMounts(vertices[..i], actions)
        invariant unmounts == RecordedUnmounts(vertices[..i], actions)
      {
        assert vertices[..i + 1][..i] == vertices[..i];
        var v := vertices[i];
        var kind := actions[v].kind;
        if kind.Mount? && !kind.swap {
          mounts := mounts[kind.path := v];
        }
        if kind.Unmount? && !kind.swap {
          unmounts := unmounts[kind.path := v];
        }
      }
      assert vertices[..|vertices|] == vertices;
    }

    /** One edge between every recorded path and its nearest recorded ancestor, backward for unmounts. */
    method LinkMounts(recorded: map<string, Vertex>, backward: bool)
      requires Valid() && forall p :: p in recorded ==> recorded[p] in vertices
      modifies this`edges
      ensures Valid()
      ensures forall e :: e in edges <==>
        e in old(edges) || IsMountLink(recorded, if backward then Edge(e.target, e.source) else e)
    {
      var todo := recorded.Keys;
      while todo != {}
        invariant Valid() && todo <= recorded.Keys
        invariant forall e :: e in edges <==>
          || e in old(edges)
          || IsLinkFrom(recorded, recorded.Keys - todo, if backward then Edge(e.target, e.source) else e)
      {
        var child :| child in todo;
        var parent := FindMountParent(recorded, child);
        ghost var es, done := edges, recorded.Keys - todo;
        if parent.Some? {
          if backward {
            AddEdge(recorded[child], recorded[parent.value]);
          } else {
            AddEdge(recorded[parent.value], recorded[child]);
          }
        }
        todo := todo - {child};
        assert recorded.Keys - todo == done + {child};
        forall e {
          LinkOfChild(recorded, done, child, parent, e);
        }
      }
      assert recorded.Keys - {} == recorded.Keys;
    }

    // ----- priorities

    /** Gives every swap mount priority 2 and every other prerequisite of one priority 1. */
    method SetPriorities()
      requires Valid() && priorities == map[]
      modifies this`priorities
      ensures ExactPriorities(Support(edges), actions, priorities)
    {
      for i := 0 to |vertices|
        invariant Justified(Support(edges), actions, priorities) && ClosedExcept(edges, priorities, {})
        invariant forall k :: 0 <= k < i && IsSwap(actions, vertices[k]) ==> PriorityOf(priorities, vertices[k]) == 2
      {
        var v := vertices[i];
        if actions[v].IsSwapMount() {
          RaiseSwap(edges, actions, priorities, v);
          priorities := priorities[v := 2];
          SetPrioritiesUpward(v, {});
        }
      }
      forall v | IsSwap(actions, v) ensures PriorityOf(priorities, v) == 2 {
        assert v in vertices;
      }
      ClosedAndJustifiedIsExact(edges, actions, priorities);
    }

    /** Raises whatever v1 depends on; `open` are the actions whose prerequisites are still being raised. */
    method SetPrioritiesUpward(v1: Vertex, ghost open: set<Vertex>)
      requires Valid()
      requires Justified(Support(edges), actions, priorities) && LeadsToSwap(Support(edges), actions, v1)
      requires ClosedExcept(edges, priorities, open + {v1})
      modifies this`priorities
      ensures OnlyRaised(old(priorities), priorities)
      ensures Justified(Support(edges), actions, priorities)
      ensures ClosedExcept(edges, priorities, open)
      decreases |Low(actions.Keys, priorities)|, 1
    {
      var parents := Parents(edges, v1);
      for i := 0 to |parents|
        invariant OnlyRaised(old(priorities), priorities)
        invariant Justified(Support(edges), actions, priorities)
        invariant ClosedExcept(edges, priorities, open + {v1})
        invariant forall k :: 0 <= k < i ==> PriorityOf(priorities, parents[k]) >= 1
      {
        ghost var p := priorities;
        LowShrinks(actions.Keys, old(priorities), p);
        ParentsAreSources(edges, v1, parents[i]);
        RaiseParent(parents[i], v1, open + {v1});
        OnlyRaisedTrans(old(priorities), p, priorities);
      }
      EdgesComeFromParents(edges, v1);
    }

    method RaiseParent(v2: Vertex, ghost v1: Vertex, ghost open: set<Vertex>)
      requires Valid() && Edge(v2, v1) in edges
      requires Justified(Support(edges), actions, priorities) && LeadsToSwap(Support(edges), actions, v1)
      requires ClosedExcept(edges, priorities, open)
      modifies this`priorities
      ensures OnlyRaised(old(priorities), priorities)
      ensures Justified(Support(edges), actions, priorities)
      ensures ClosedExcept(edges, priorities, open)
      ensures PriorityOf(priorities, v2) >= 1
      decreases |Low(actions.Keys, priorities)|, 0
    {
      if PriorityOf(priorities, v2) < 1 {
        ghost var p := priorities;
        RaiseOne(edges, actions, priorities, open, v1, v2);
        priorities := priorities[v2 := 1];
        LowShrinksStrictly(actions.Keys, p, priorities, v2);
        ghost var raised := priorities;
        SetPrioritiesUpward(v2, open);
        OnlyRaisedTrans(p, raised, priorities);
      }
    }

    // ----- the order

    method PrioritisedTopologicalSort() returns (r: Option<seq<Vertex>>)
      requires Valid()
      ensures r.Some? ==> IsTopological(vertices, edges, r.value) && IsGreedy(vertices, edges, priorities, r.value)
      ensures r.Some? <==> Acyclic(Support(edges))
    {
      r := KahnSort(vertices, edges, priorities);
    }
  }
}
