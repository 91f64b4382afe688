/**
 * What the planner is given: the two devicegraphs as far as it asks about them, and the action chains
 * each device contributes.
 */
module DeviceChanges {

  import opened Reachability
  import opened Actions

  /**
   * The actions a device or holder contributes in one go: a chain, whose `last` flag sits at lastAt
   * (the end, except for encryptions in crypttab), or a loose action without flags.
   */
  datatype Chain =
    | Chain(actions: seq<Action>, lastAt: nat)
    | Loose(action: Action)
  {
    function Size(): nat {
      match this
      case Chain(actions, _) => |actions|
      case Loose(_) => 1
    }

    /** The i-th action with the flags add_chain gives it. */
    function At(i: nat): Action
      requires i < Size()
    {
      match this
      case Chain(actions, lastAt) => actions[i].(first := i == 0, last := i == lastAt)
      case Loose(action) => action
    }
  }

  /**
   * lhs and rhs: the device sids of system and staging.  rhsParents uses View::ALL; lhsParents and
   * lhsChildren use View::REMOVE.  chains: what the device with that sid adds, as created, modified or
   * deleted device; holderChains: what the holders add.
   */
  datatype Request = Request(
    lhs: seq<Sid>, rhs: seq<Sid>,
    rhsParents: map<Sid, seq<Sid>>,
    lhsParents: map<Sid, seq<Sid>>,
    lhsChildren: map<Sid, seq<Sid>>,
    dependencyManaged: set<Sid>,
    chains: map<Sid, seq<Chain>>,
    holderChains: seq<Chain>)
  {
    function ParentsInRhs(s: Sid): seq<Sid> { if s in rhsParents then rhsParents[s] else [] }
    function ParentsInLhs(s: Sid): seq<Sid> { if s in lhsParents then lhsParents[s] else [] }
    function ChildrenInLhs(s: Sid): seq<Sid> { if s in lhsChildren then lhsChildren[s] else [] }
    function ChainsOf(s: Sid): seq<Chain> { if s in chains then chains[s] else [] }
  }

  /** The members of s that are (not) in t, in order: set_intersection and set_difference on sorted ranges. */
  function Common(s: seq<Sid>, t: seq<Sid>): seq<Sid> {
    if s == [] then []
    else Common(s[..|s| - 1], t) + (if s[|s| - 1] in t then [s[|s| - 1]] else [])
  }

  function Missing(s: seq<Sid>, t: seq<Sid>): seq<Sid> {
    if s == [] then []
    else Missing(s[..|s| - 1], t) + (if s[|s| - 1] in t then [] else [s[|s| - 1]])
  }

  function ChainsOfAll(req: Request, sids: seq<Sid>): seq<Chain> {
    if sids == [] then []
    else ChainsOfAll(req, sids[..|sids| - 1]) + req.ChainsOf(sids[|sids| - 1])
  }

  /** All chains in the order they are added: created, common, deleted devices, then holders. */
  function AllChains(req: Request): seq<Chain> {
    ChainsOfAll(req, Missing(req.rhs, req.lhs) + Common(req.lhs, req.rhs) + Missing(req.lhs, req.rhs))
    + req.holderChains
  }

  // ----- the graph the chains make

  function ChainEdges(base: Vertex, n: nat): seq<Edge> {
    if n < 2 then [] else ChainEdges(base, n - 1) + [Edge(base + n - 2, base + n - 1)]
  }

  /** The first n actions of the chain put at the vertices from base on. */
  function LayOn(actions: map<Vertex, Action>, base: Vertex, chain: Chain, n: nat): map<Vertex, Action>
    requires n <= chain.Size()
  {
    if n == 0 then actions else LayOn(actions, base, chain, n - 1)[base + n - 1 := chain.At(n - 1)]
  }

  /** The n vertices from base on. */
  function Numbers(base: Vertex, n: nat): seq<Vertex> {
    if n == 0 then [] else Numbers(base, n - 1) + [base + n - 1]
  }

  lemma {:induction false} NumbersJoined(base: Vertex, m: nat, n: nat)
    ensures Numbers(base, m) + Numbers(base + m, n) == Numbers(base, m + n)
  {
    if n == 0 {
      assert Numbers(base, m) + [] == Numbers(base, m);
    } else {
      NumbersJoined(base, m, n - 1);
      assert Numbers(base, m) + (Numbers(base + m, n - 1) + [base + m + n - 1]) ==
        (Numbers(base, m) + Numbers(base + m, n - 1)) + [base + m + n - 1];
    }
  }

  lemma {:induction false} NumbersMembers(base: Vertex, n: nat)
    ensures |Numbers(base, n)| == n && forall i :: 0 <= i < n ==> Numbers(base, n)[i] == base + i
  {
    if n > 0 {
      NumbersMembers(base, n - 1);
    }
  }

  /** The number of actions in the chains. */
  function End(chains: seq<Chain>): nat {
    if chains == [] then 0 else End(chains[..|chains| - 1]) + chains[|chains| - 1].Size()
  }

  /** The actions of all chains, at vertices numbered in order. */
  function ActionsOf(chains: seq<Chain>): map<Vertex, Action> {
    if chains == [] then map[]
    else
      var front, last := chains[..|chains| - 1], chains[|chains| - 1];
      LayOn(ActionsOf(front), End(front), last, last.Size())
  }

  function EdgesOf(chains: seq<Chain>): seq<Edge> {
    if chains == [] then []
    else
      var front, last := chains[..|chains| - 1], chains[|chains| - 1];
      EdgesOf(front) + ChainEdges(End(front), last.Size())
  }

  /** The vertex of action i of chain k. */
  function VertexAt(chains: seq<Chain>, k: nat, i: nat): Vertex
    requires k < |chains|
  {
    End(chains[..k]) + i
  }

  lemma Snoc(chains: seq<Chain>, chain: Chain)
    ensures End(chains + [chain]) == End(chains) + chain.Size()
    ensures ActionsOf(chains + [chain]) == LayOn(ActionsOf(chains), End(chains), chain, chain.Size())
    ensures EdgesOf(chains + [chain]) == EdgesOf(chains) + ChainEdges(End(chains), chain.Size())
  {
    assert (chains + [chain])[..|chains|] == chains;
  }

  lemma SnocNumbers(chains: seq<Chain>, chain: Chain)
    ensures Numbers(0, End(chains + [chain])) == Numbers(0, End(chains)) + Numbers(End(chains), chain.Size())
  {
    assert (chains + [chain])[..|chains|] == chains;
    NumbersJoined(0, End(chains), chain.Size());
  }

  lemma {:induction false} LayOnMembers(actions: map<Vertex, Action>, base: Vertex, chain: Chain, n: nat)
    requires n <= chain.Size()
    ensures forall v :: v in LayOn(actions, base, chain, n) <==> v in actions || base <= v < base + n
    ensures forall v :: v in actions && !(base <= v < base + n) ==> LayOn(actions, base, chain, n)[v] == actions[v]
    ensures forall v :: base <= v < base + n ==> LayOn(actions, base, chain, n)[v] == chain.At(v - base)
  {
    if n > 0 {
      LayOnMembers(actions, base, chain, n - 1);
    }
  }

  /** Laying a second chain over the first leaves nothing of the first. */
  lemma LayOnTwice(actions: map<Vertex, Action>, base: Vertex, chain: Chain, chain': Chain)
    requires chain.Size() == chain'.Size()
    ensures LayOn(LayOn(actions, base, chain, chain.Size()), base, chain', chain.Size())
            == LayOn(actions, base, chain', chain.Size())
  {
    LayOnMembers(actions, base, chain, chain.Size());
    LayOnMembers(actions, base, chain', chain.Size());
    LayOnMembers(LayOn(actions, base, chain, chain.Size()), base, chain', chain.Size());
  }

  /** One round of moving the last flag from a to b: the action about to be changed is the one laid before. */
  lemma MoveRound(actions: map<Vertex, Action>, base: Vertex, list: seq<Action>, a: nat, b: nat, i: nat)
    requires i < |list|
    ensures var now := LayOn(LayOn(actions, base, Chain(list, a), |list|), base, Chain(list, b), i);
      base + i in now && now[base + i].(last := i == b) == Chain(list, b).At(i)
  {
    var was := LayOn(actions, base, Chain(list, a), |list|);
    LayOnMembers(actions, base, Chain(list, a), |list|);
    LayOnMembers(was, base, Chain(list, b), i);
    assert was[base + i] == Chain(list, a).At(base + i - base);
  }

  lemma {:induction false} VerticesAreNumbered(chains: seq<Chain>)
    ensures forall v: Vertex :: v in ActionsOf(chains) <==> v < End(chains)
  {
    if chains != [] {
      var front, last := chains[..|chains| - 1], chains[|chains| - 1];
      VerticesAreNumbered(front);
      LayOnMembers(ActionsOf(front), End(front), last, last.Size());
      forall v: Vertex ensures v in ActionsOf(chains) <==> v < End(chains) {
        assert v in ActionsOf(chains) <==> v in LayOn(ActionsOf(front), End(front), last, last.Size());
      }
    }
  }

  /** The i-th action the chain was given; in a proper chain the flags say where it stands. */
  predicate IsPlaced(chain: Chain, i: nat, action: Action)
    requires i < chain.Size()
  {
    match chain
    case Chain(actions, lastAt) =>
      && action.kind == actions[i].kind && action.affectsDevice == actions[i].affectsDevice
      && action.sid == actions[i].sid && action.onlySync == actions[i].onlySync
      && (action.first <==> i == 0) && (action.last <==> i == lastAt)
    case Loose(loose) => action == loose
  }

  /** Every action of every chain is at its vertex. */
  lemma {:induction false} ActionAt(chains: seq<Chain>, k: nat, i: nat)
    requires k < |chains| && i < chains[k].Size()
    ensures VertexAt(chains, k, i) in ActionsOf(chains) && ActionsOf(chains)[VertexAt(chains, k, i)] == chains[k].At(i)
    ensures IsPlaced(chains[k], i, ActionsOf(chains)[VertexAt(chains, k, i)])
  {
    var front, last := chains[..|chains| - 1], chains[|chains| - 1];
    LayOnMembers(ActionsOf(front), End(front), last, last.Size());
    if k < |front| {
      assert front[..k] == chains[..k];
      ActionAt(front, k, i);
      VerticesAreNumbered(front);
    } else {
      assert chains[..k] == front;
      assert VertexAt(chains, k, i) - End(front) == i;
    }
  }

  /** Every vertex belongs to one place of one chain. */
  lemma {:induction false} FindPlace(chains: seq<Chain>, v: Vertex) returns (k: nat, i: nat)
    requires v in ActionsOf(chains)
    ensures k < |chains| && i < chains[k].Size() && v == VertexAt(chains, k, i)
  {
    VerticesAreNumbered(chains);
    var front := chains[..|chains| - 1];
    VerticesAreNumbered(front);
    if v < End(front) {
      k, i := FindPlace(front, v);
      assert front[..k] == chains[..k];
    } else {
      k, i := |front|, v - End(front);
    }
  }

  lemma {:induction false} ChainEdgesReach(base: Vertex, n: nat, i: nat, j: nat)
    requires i < j < n
    ensures Reaches(Support(ChainEdges(base, n)), base + i, base + j)
    decreases n
  {
    var es := Support(ChainEdges(base, n));
    assert Support(ChainEdges(base, n - 1)) <= es;
    if j < n - 1 {
      ChainEdgesReach(base, n - 1, i, j);
      ReachesMono(Support(ChainEdges(base, n - 1)), es, base + i, base + j);
    } else {
      assert ChainEdges(base, n)[|ChainEdges(base, n)| - 1] == Edge(base + j - 1, base + j);
      StepReaches(es, base + j - 1, base + j);
      if i < j - 1 {
        ChainEdgesReach(base, n - 1, i, j - 1);
        ReachesMono(Support(ChainEdges(base, n - 1)), es, base + i, base + j - 1);
        ReachesTrans(es, base + i, base + j - 1, base + j);
      }
    }
  }

  /** Along a chain every earlier action reaches every later one. */
  lemma {:induction false} ChainReaches(chains: seq<Chain>, k: nat, i: nat, j: nat)
    requires k < |chains| && i < j < chains[k].Size()
    ensures Reaches(Support(EdgesOf(chains)), VertexAt(chains, k, i), VertexAt(chains, k, j))
  {
    var front, last := chains[..|chains| - 1], chains[|chains| - 1];
    var u, v := VertexAt(chains, k, i), VertexAt(chains, k, j);
    assert chains[..k] == front[..k];
    if k < |front| {
      ChainReaches(front, k, i, j);
      assert Support(EdgesOf(front)) <= Support(EdgesOf(chains));
      ReachesMono(Support(EdgesOf(front)), Support(EdgesOf(chains)), u, v);
    } else {
      assert front[..k] == front;
      ChainEdgesReach(End(front), last.Size(), i, j);
      assert Support(ChainEdges(End(front), last.Size())) <= Support(EdgesOf(chains));
      ReachesMono(Support(ChainEdges(End(front), last.Size())), Support(EdgesOf(chains)), u, v);
    }
  }

  // ----- and no other edges

  lemma {:induction false} EndGrows(chains: seq<Chain>, k: nat, k': nat)
    requires k <= k' <= |chains|
    ensures End(chains[..k]) <= End(chains[..k'])
    ensures k < k' ==> End(chains[..k]) + chains[k].Size() <= End(chains[..k'])
  {
    if k < k' {
      assert chains[..k'][..k' - 1] == chains[..k' - 1];
      EndGrows(chains, k, k' - 1);
    }
  }

  /** Vertices are numbered chain by chain and along each chain. */
  lemma PlacesInOrder(chains: seq<Chain>, k: nat, i: nat, k': nat, i': nat)
    requires k < |chains| && i < chains[k].Size() && k' < |chains| && i' < chains[k'].Size()
    ensures VertexAt(chains, k, i) < VertexAt(chains, k', i') <==> k < k' || (k == k' && i < i')
  {
    if k <= k' {
      EndGrows(chains, k, k');
    } else {
      EndGrows(chains, k', k);
    }
  }

  lemma {:induction false} ChainEdgesExactly(base: Vertex, n: nat)
    ensures |ChainEdges(base, n)| == if n < 2 then 0 else n - 1
    ensures forall i :: 0 <= i < |ChainEdges(base, n)| ==> ChainEdges(base, n)[i] == Edge(base + i, base + i + 1)
  {
    if n >= 2 {
      ChainEdgesExactly(base, n - 1);
    }
  }

  /** The edge joins an action of a chain to the next one of the same chain. */
  ghost predicate IsChainStep(chains: seq<Chain>, e: Edge) {
    exists k, i: nat :: IsStepAt(chains, k, i, e)
  }

  ghost predicate IsStepAt(chains: seq<Chain>, k: int, i: nat, e: Edge) {
    0 <= k < |chains| && i + 1 < chains[k].Size() && e == Edge(VertexAt(chains, k, i), VertexAt(chains, k, i + 1))
  }

  lemma StepOfFront(chains: seq<Chain>, front: seq<Chain>, e: Edge)
    requires front <= chains && IsChainStep(front, e)
    ensures IsChainStep(chains, e)
  {
    var k, i: nat :| IsStepAt(front, k, i, e);
    assert front[..k] == chains[..k];
    assert IsStepAt(chains, k, i, e);
  }

  lemma StepOfLast(front: seq<Chain>, last: Chain, e: Edge)
    ensures IsChainStep(front + [last], e) <==> IsChainStep(front, e) || e in ChainEdges(End(front), last.Size())
  {
    var chains, edges := front + [last], ChainEdges(End(front), last.Size());
    ChainEdgesExactly(End(front), last.Size());
    assert chains[..|front|] == front;
    if IsChainStep(front, e) {
      StepOfFront(chains, front, e);
    }
    if e in edges {
      var i: nat :| i < |edges| && edges[i] == e;
      assert IsStepAt(chains, |front|, i, e);
    }
    if IsChainStep(chains, e) {
      var k, i: nat :| IsStepAt(chains, k, i, e);
      if k < |front| {
        assert front[..k] == chains[..k];
        assert IsStepAt(front, k, i, e);
      } else {
        assert edges[i] == e;
      }
    }
  }

  /** Which edges the chains add: those from every action to the next one, and no others. */
  lemma {:induction false} EdgesExactly(chains: seq<Chain>, e: Edge)
    ensures e in EdgesOf(chains) <==> IsChainStep(chains, e)
  {
    if chains != [] {
      var front, last := chains[..|chains| - 1], chains[|chains| - 1];
      assert chains == front + [last];
      EdgesExactly(front, e);
      StepOfLast(front, last, e);
    }
  }

  /** u and v are actions of one chain, u the earlier one. */
  ghost predicate EarlierInChain(chains: seq<Chain>, u: Vertex, v: Vertex) {
    exists k, i, j: nat :: ArePlacedAt(chains, k, i, j, u, v)
  }

  ghost predicate ArePlacedAt(chains: seq<Chain>, k: int, i: int, j: nat, u: Vertex, v: Vertex) {
    0 <= k < |chains| && 0 <= i < j < chains[k].Size() && u == VertexAt(chains, k, i) && v == VertexAt(chains, k, j)
  }

  lemma {:induction false} ChainWalk(chains: seq<Chain>, n: nat, u: Vertex, v: Vertex)
    requires Walk(Support(EdgesOf(chains)), n, u, v)
    ensures EarlierInChain(chains, u, v)
    decreases n
  {
    if n == 1 {
      EdgesExactly(chains, Edge(u, v));
      var k, i: nat :| IsStepAt(chains, k, i, Edge(u, v));
      assert ArePlacedAt(chains, k, i, i + 1, u, v);
    } else {
      var w :| Edge(u, w) in Support(EdgesOf(chains)) && Walk(Support(EdgesOf(chains)), n - 1, w, v);
      EdgesExactly(chains, Edge(u, w));
      var k, i: nat :| IsStepAt(chains, k, i, Edge(u, w));
      ChainWalk(chains, n - 1, w, v);
      var k', i', j: nat :| ArePlacedAt(chains, k', i', j, w, v);
      PlacesInOrder(chains, k, i + 1, k', i');
      PlacesInOrder(chains, k', i', k, i + 1);
      assert ArePlacedAt(chains, k, i, j, u, v);
    }
  }

  /** The chains alone order two actions if and only if these belong to one chain, in this order. */
  lemma ChainReachesExactly(chains: seq<Chain>, u: Vertex, v: Vertex)
    ensures Reaches(Support(EdgesOf(chains)), u, v) <==> EarlierInChain(chains, u, v)
  {
    var es := Support(EdgesOf(chains));
    if Reaches(es, u, v) {
      var n: nat :| Walk(es, n, u, v);
      ChainWalk(chains, n, u, v);
    }
    if EarlierInChain(chains, u, v) {
      var k, i, j: nat :| ArePlacedAt(chains, k, i, j, u, v);
      ChainReaches(chains, k, i, j);
    }
  }

  /** So the chains alone never make a cycle. */
  lemma ChainsAreAcyclic(chains: seq<Chain>)
    ensures Acyclic(Support(EdgesOf(chains)))
  {
    forall v ensures !Reaches(Support(EdgesOf(chains)), v, v) {
      ChainReachesExactly(chains, v, v);
    }
  }
}
