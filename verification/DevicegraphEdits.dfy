/** The devicegraph as a value: devices as vertices, holders as edges, the edits and the comparison. */
module DevicegraphEdits {

  import opened Sequences
  import opened Actions

  type Descriptor = nat

  datatype Device = Device(sid: Sid, content: nat)

  /** A holder; kind stands for its class. */
  datatype Holder = Holder(kind: nat, content: nat)

  datatype Link = Link(id: Descriptor, source: Descriptor, target: Descriptor, holder: Holder)

  /** Vertices and edges in list order; descriptors from next on are unused. */
  datatype Graph = Graph(vertices: seq<Descriptor>, devices: map<Descriptor, Device>, links: seq<Link>,
                         next: Descriptor)

  ghost predicate Attached(devices: map<Descriptor, Device>, links: seq<Link>) {
    forall l :: l in links ==> l.source in devices && l.target in devices
  }

  ghost predicate WellFormed(g: Graph) {
    && Distinct(g.vertices)
    && (forall v :: v in g.vertices <==> v in g.devices)
    && (forall v :: v in g.vertices ==> v < g.next)
    && Attached(g.devices, g.links)
    && (forall i :: 0 <= i < |g.links| ==> g.links[i].id < g.next)
    && (forall i, j :: 0 <= i < j < |g.links| ==> g.links[i].id != g.links[j].id)
  }

  function Ends(devices: map<Descriptor, Device>, l: Link): (Sid, Sid)
    requires l.source in devices && l.target in devices
  {
    (devices[l.source].sid, devices[l.target].sid)
  }

  /** A holder of this kind joins the devices with these sids. */
  ghost predicate Taken(devices: map<Descriptor, Device>, links: seq<Link>, ends: (Sid, Sid), kind: nat)
    requires Attached(devices, links)
  {
    exists l :: l in links && Ends(devices, l) == ends && l.holder.kind == kind
  }

  /** No two holders of one kind join the same ordered pair of sids. */
  ghost predicate OnePerKind(devices: map<Descriptor, Device>, links: seq<Link>)
    requires Attached(devices, links)
  {
    forall i, j :: 0 <= i < j < |links| ==>
      Ends(devices, links[i]) != Ends(devices, links[j]) || links[i].holder.kind != links[j].holder.kind
  }

  function Without(links: seq<Link>, id: Descriptor): seq<Link> {
    if links == [] then []
    else Without(links[..|links| - 1], id) + (if links[|links| - 1].id == id then [] else [links[|links| - 1]])
  }

  /** What clear_vertex leaves. */
  function NotAt(links: seq<Link>, v: Descriptor): seq<Link> {
    if links == [] then []
    else
      var l := links[|links| - 1];
      NotAt(links[..|links| - 1], v) + (if l.source == v || l.target == v then [] else [l])
  }

  /** The holders joining two sids, in list order. */
  function Joining(devices: map<Descriptor, Device>, links: seq<Link>, ends: (Sid, Sid)): seq<Link>
    requires Attached(devices, links)
  {
    if links == [] then []
    else
      assert links[..|links| - 1] <= links;
      var l := links[|links| - 1];
      Joining(devices, links[..|links| - 1], ends) + (if Ends(devices, l) == ends then [l] else [])
  }

  // ----- edits

  datatype Edit =
    | AddVertex(device: Device)
    | AddEdge(source: Descriptor, target: Descriptor, holder: Holder)
    | SetSource(edge: Descriptor, source: Descriptor)
    | SetTarget(edge: Descriptor, target: Descriptor)
    | RemoveVertex(vertex: Descriptor)
    | RemoveEdge(edge: Descriptor)
    | Clear

  ghost predicate HasLink(g: Graph, id: Descriptor) {
    exists i :: 0 <= i < |g.links| && g.links[i].id == id
  }

  /** The edge with a descriptor. */
  function LinkWith(links: seq<Link>, id: Descriptor): (l: Link)
    requires exists i :: 0 <= i < |links| && links[i].id == id
    ensures l in links && l.id == id
  {
    if links[0].id == id then links[0] else
      assert exists i :: 0 <= i < |links[1..]| && links[1..][i].id == id by {
        var i :| 0 <= i < |links| && links[i].id == id;
        assert links[1..][i - 1].id == id;
      }
      LinkWith(links[1..], id)
  }

  /** The descriptors an edit is given belong to the graph. */
  ghost predicate Legal(g: Graph, edit: Edit) {
    match edit
    case AddVertex(_) => true
    case AddEdge(s, t, _) => s in g.vertices && t in g.vertices
    case SetSource(e, s) => HasLink(g, e) && s in g.vertices
    case SetTarget(e, t) => HasLink(g, e) && t in g.vertices
    case RemoveVertex(v) => v in g.vertices
    case RemoveEdge(e) => HasLink(g, e)
    case Clear => true
  }

  /** The edge the edit wants to add. */
  ghost function Wanted(g: Graph, edit: Edit): Link
    requires WellFormed(g) && Legal(g, edit) && (edit.AddEdge? || edit.SetSource? || edit.SetTarget?)
  {
    match edit
    case AddEdge(s, t, holder) => Link(g.next, s, t, holder)
    case SetSource(e, s) => Link(g.next, s, LinkWith(g.links, e).target, LinkWith(g.links, e).holder)
    case SetTarget(e, t) => Link(g.next, LinkWith(g.links, e).source, t, LinkWith(g.links, e).holder)
  }

  ghost predicate Throws(g: Graph, edit: Edit)
    requires WellFormed(g) && Legal(g, edit)
  {
    (edit.AddEdge? || edit.SetSource? || edit.SetTarget?) &&
    Taken(g.devices, g.links, Ends(g.devices, Wanted(g, edit)), Wanted(g, edit).holder.kind)
  }

  /** The graph after an edit; one that throws changes nothing. */
  ghost function After(g: Graph, edit: Edit): Graph
    requires WellFormed(g) && Legal(g, edit)
  {
    if Throws(g, edit) then g
    else match edit
      case AddVertex(device) =>
        g.(vertices := g.vertices + [g.next], devices := g.devices[g.next := device], next := g.next + 1)
      case AddEdge(_, _, _) => g.(links := g.links + [Wanted(g, edit)], next := g.next + 1)
      case SetSource(e, _) => g.(links := Without(g.links + [Wanted(g, edit)], e), next := g.next + 1)
      case SetTarget(e, _) => g.(links := Without(g.links + [Wanted(g, edit)], e), next := g.next + 1)
      case RemoveVertex(v) =>
        g.(vertices := Dropped(g.vertices, v), devices := g.devices - {v}, links := NotAt(g.links, v))
      case RemoveEdge(e) => g.(links := Without(g.links, e))
      case Clear => g.(vertices := [], devices := map[], links := [])
  }

  function Dropped(vertices: seq<Descriptor>, v: Descriptor): seq<Descriptor>
    requires v in vertices
  {
    vertices[..IndexOf(vertices, v)] + vertices[IndexOf(vertices, v) + 1..]
  }

  // ----- what every edit keeps

  /** some is links with elements left out; at says where the others were. */
  ghost predicate IsThinning(at: seq<nat>, some: seq<Link>, links: seq<Link>) {
    && |at| == |some|
    && (forall i :: 0 <= i < |at| ==> at[i] < |links| && some[i] == links[at[i]])
    && (forall i, j :: 0 <= i < j < |at| ==> at[i] < at[j])
  }

  lemma {:induction false} WithoutThins(links: seq<Link>, id: Descriptor) returns (at: seq<nat>)
    ensures IsThinning(at, Without(links, id), links)
    ensures forall l :: l in Without(links, id) <==> l in links && l.id != id
  {
    if links == [] {
      at := [];
    } else {
      at := WithoutThins(links[..|links| - 1], id);
      assert links == links[..|links| - 1] + [links[|links| - 1]];
      if links[|links| - 1].id != id {
        at := at + [|links| - 1];
      }
    }
  }

  lemma {:induction false} NotAtThins(links: seq<Link>, v: Descriptor) returns (at: seq<nat>)
    ensures IsThinning(at, NotAt(links, v), links)
    ensures forall l :: l in NotAt(links, v) <==> l in links && l.source != v && l.target != v
  {
    if links == [] {
      at := [];
    } else {
      at := NotAtThins(links[..|links| - 1], v);
      assert links == links[..|links| - 1] + [links[|links| - 1]];
      var l := links[|links| - 1];
      if l.source != v && l.target != v {
        at := at + [|links| - 1];
      }
    }
  }

  /** Leaving edges out keeps the ids apart and the holders of one kind unique. */
  lemma ThinningKeeps(at: seq<nat>, devices: map<Descriptor, Device>, links: seq<Link>,
                            devices': map<Descriptor, Device>, some: seq<Link>)
    requires IsThinning(at, some, links) && Attached(devices, links) && Attached(devices', some)
    requires forall v :: v in devices' ==> v in devices && devices'[v] == devices[v]
    requires OnePerKind(devices, links)
    ensures OnePerKind(devices', some)
  {
    forall i, j | 0 <= i < j < |some|
      ensures Ends(devices', some[i]) != Ends(devices', some[j]) || some[i].holder.kind != some[j].holder.kind
    {
      assert some[i] == links[at[i]] && some[j] == links[at[j]] && at[i] < at[j];
      assert some[i] in some && some[j] in some;
    }
  }

  lemma ThinningKeepsIds(at: seq<nat>, links: seq<Link>, some: seq<Link>)
    requires IsThinning(at, some, links)
    requires forall i, j :: 0 <= i < j < |links| ==> links[i].id != links[j].id
    ensures forall i, j :: 0 <= i < j < |some| ==> some[i].id != some[j].id
    ensures forall l :: l in some ==> l in links
  {
    forall i, j | 0 <= i < j < |some| ensures some[i].id != some[j].id {
      assert some[i] == links[at[i]] && some[j] == links[at[j]] && at[i] < at[j];
    }
  }

  lemma AppendKeeps(devices: map<Descriptor, Device>, links: seq<Link>, l: Link)
    requires Attached(devices, links) && Attached(devices, links + [l])
    requires !Taken(devices, links, Ends(devices, l), l.holder.kind)
    requires OnePerKind(devices, links)
    ensures OnePerKind(devices, links + [l])
  {
    var more := links + [l];
    forall i, j | 0 <= i < j < |more|
      ensures Ends(devices, more[i]) != Ends(devices, more[j]) || more[i].holder.kind != more[j].holder.kind
    {
      assert more[i] == links[i] && links[i] in links;
      if j < |links| {
        assert more[j] == links[j];
      }
    }
  }

  /** Whatever the edit, thrown or not: the graph stays well-formed. */
  lemma StaysWellFormed(g: Graph, edit: Edit)
    requires WellFormed(g) && Legal(g, edit)
    ensures WellFormed(After(g, edit))
  {
    if !Throws(g, edit) {
      match edit
      case RemoveVertex(v) =>
        RemovalWellFormed(g, v);
      case RemoveEdge(e) =>
        var at := WithoutThins(g.links, e);
        ThinningKeepsIds(at, g.links, Without(g.links, e));
      case SetSource(e, _) =>
        RetargetWellFormed(g, e, Wanted(g, edit));
      case SetTarget(e, _) =>
        RetargetWellFormed(g, e, Wanted(g, edit));
      case AddVertex(device) =>
        AdditionWellFormed(g, device);
      case _ =>
    }
  }

  lemma RemovalWellFormed(g: Graph, v: Descriptor)
    requires WellFormed(g) && v in g.vertices
    ensures WellFormed(g.(vertices := Dropped(g.vertices, v), devices := g.devices - {v}, links := NotAt(g.links, v)))
  {
    var at := NotAtThins(g.links, v);
    ThinningKeepsIds(at, g.links, NotAt(g.links, v));
    DroppedMembers(g.vertices, v);
  }

  lemma DroppedMembers(vertices: seq<Descriptor>, v: Descriptor)
    requires Distinct(vertices) && v in vertices
    ensures Distinct(Dropped(vertices, v))
    ensures forall u :: u in Dropped(vertices, v) <==> u in vertices && u != v
  {
    var i := IndexOf(vertices, v);
    assert vertices == vertices[..i] + [v] + vertices[i + 1..];
    assert v !in vertices[..i] && v !in vertices[i + 1..];
  }

  lemma AdditionWellFormed(g: Graph, device: Device)
    requires WellFormed(g)
    ensures WellFormed(
      g.(vertices := g.vertices + [g.next], devices := g.devices[g.next := device], next := g.next + 1))
  {
    assert g.next !in g.vertices;
  }

  lemma RetargetWellFormed(g: Graph, id: Descriptor, l: Link)
    requires WellFormed(g) && l.id == g.next && l.source in g.vertices && l.target in g.vertices
    ensures WellFormed(g.(links := Without(g.links + [l], id), next := g.next + 1))
  {
    var at := WithoutThins(g.links + [l], id);
    ThinningKeepsIds(at, g.links + [l], Without(g.links + [l], id));
  }

  /** Whatever the edit, thrown or not: no two holders of one kind join the same ordered pair afterwards. */
  lemma StaysOnePerKind(g: Graph, edit: Edit)
    requires WellFormed(g) && Legal(g, edit) && OnePerKind(g.devices, g.links)
    ensures WellFormed(After(g, edit)) && OnePerKind(After(g, edit).devices, After(g, edit).links)
  {
    StaysWellFormed(g, edit);
    var r := After(g, edit);
    if !Throws(g, edit) {
      match edit
      case AddVertex(_) =>
        ThinningKeeps(seq(|g.links|, i => i), g.devices, g.links, g.devices, g.links);
        forall l | l in g.links ensures Ends(r.devices, l) == Ends(g.devices, l) {
        }
      case AddEdge(_, _, _) =>
        AppendKeeps(g.devices, g.links, Wanted(g, edit));
      case RemoveVertex(v) =>
        var at := NotAtThins(g.links, v);
        ThinningKeeps(at, g.devices, g.links, r.devices, r.links);
      case RemoveEdge(e) =>
        var at := WithoutThins(g.links, e);
        ThinningKeeps(at, g.devices, g.links, r.devices, r.links);
      case SetSource(e, _) =>
        RetargetOnePerKind(g, e, Wanted(g, edit));
      case SetTarget(e, _) =>
        RetargetOnePerKind(g, e, Wanted(g, edit));
      case Clear =>
    }
  }

  lemma RetargetOnePerKind(g: Graph, id: Descriptor, l: Link)
    requires WellFormed(g) && OnePerKind(g.devices, g.links)
    requires l.source in g.vertices && l.target in g.vertices
    requires !Taken(g.devices, g.links, Ends(g.devices, l), l.holder.kind)
    ensures Attached(g.devices, Without(g.links + [l], id)) && OnePerKind(g.devices, Without(g.links + [l], id))
  {
    AppendKeeps(g.devices, g.links, l);
    var at := WithoutThins(g.links + [l], id);
    ThinningKeeps(at, g.devices, g.links + [l], g.devices, Without(g.links + [l], id));
  }

  // ----- what an edit leaves

  /** The holders with the device at one of their ends. */
  ghost function LinksAt(links: seq<Link>, v: Descriptor): set<Link> {
    set l | l in links && (l.source == v || l.target == v)
  }

  ghost function LinksWithId(links: seq<Link>, id: Descriptor): set<Link> {
    set l | l in links && l.id == id
  }

  lemma NotAtSnoc(front: seq<Link>, last: Link, v: Descriptor)
    ensures NotAt(front + [last], v) ==
            if last.source == v || last.target == v then NotAt(front, v) else NotAt(front, v) + [last]
  {
    assert (front + [last])[..|front|] == front;
  }

  lemma {:induction false} NotAtIsSurvivors(links: seq<Link>, v: Descriptor, bad: set<Link>)
    requires forall l :: l in links ==> (l in bad <==> l.source == v || l.target == v)
    ensures NotAt(links, v) == Survivors(links, bad)
  {
    if links != [] {
      var front, last := links[..|links| - 1], links[|links| - 1];
      assert links == front + [last];
      NotAtIsSurvivors(front, v, bad);
      NotAtSnoc(front, last, v);
      SurvivorsSnoc(front, last, bad);
    }
  }

  lemma NotAtIsRest(links: seq<Link>, v: Descriptor)
    ensures IsRest(links, LinksAt(links, v), NotAt(links, v))
  {
    NotAtIsSurvivors(links, v, LinksAt(links, v));
    SurvivorsAreRest(links, LinksAt(links, v));
  }

  lemma WithoutSnoc(front: seq<Link>, last: Link, id: Descriptor)
    ensures Without(front + [last], id) == if last.id == id then Without(front, id) else Without(front, id) + [last]
  {
    assert (front + [last])[..|front|] == front;
  }

  lemma {:induction false} WithoutIsSurvivors(links: seq<Link>, id: Descriptor, bad: set<Link>)
    requires forall l :: l in links ==> (l in bad <==> l.id == id)
    ensures Without(links, id) == Survivors(links, bad)
  {
    if links != [] {
      var front, last := links[..|links| - 1], links[|links| - 1];
      assert links == front + [last];
      WithoutIsSurvivors(front, id, bad);
      WithoutSnoc(front, last, id);
      SurvivorsSnoc(front, last, bad);
    }
  }

  lemma WithoutIsRest(links: seq<Link>, id: Descriptor, bad: set<Link>)
    requires forall l :: l in links ==> (l in bad <==> l.id == id)
    ensures IsRest(links, bad, Without(links, id))
  {
    WithoutIsSurvivors(links, id, bad);
    SurvivorsAreRest(links, bad);
  }

  lemma DroppedIsRest(vertices: seq<Descriptor>, v: Descriptor)
    requires Distinct(vertices) && v in vertices
    ensures IsRest(vertices, {v}, Dropped(vertices, v))
  {
    var i := IndexOf(vertices, v);
    var front, back := vertices[..i], vertices[i + 1..];
    assert vertices == front + [v] + back;
    SurvivorsOfOthers(front, {v});
    SurvivorsOfOthers(back, {v});
    SurvivorsSnoc(front, v, {v});
    SurvivorsJoined(front + [v], back, {v});
    SurvivorsAreRest(vertices, {v});
  }

  /** Removing a device leaves all other devices and exactly the holders with the device at neither end, in order. */
  lemma RemoveVertexLeaves(g: Graph, v: Descriptor)
    requires WellFormed(g) && v in g.vertices
    ensures var r := After(g, RemoveVertex(v));
      && IsRest(g.vertices, {v}, r.vertices)
      && IsRest(g.links, LinksAt(g.links, v), r.links)
      && (forall u :: u in r.devices <==> u in g.devices && u != v)
      && (forall u :: u in r.devices ==> r.devices[u] == g.devices[u])
      && r.next == g.next
  {
    DroppedIsRest(g.vertices, v);
    NotAtIsRest(g.links, v);
  }

  /** Removing a holder leaves all other holders, in order, and all devices. */
  lemma RemoveEdgeLeaves(g: Graph, id: Descriptor)
    requires WellFormed(g) && HasLink(g, id)
    ensures var r := After(g, RemoveEdge(id));
      && IsRest(g.links, LinksWithId(g.links, id), r.links)
      && r.vertices == g.vertices && r.devices == g.devices && r.next == g.next
  {
    WithoutIsRest(g.links, id, LinksWithId(g.links, id));
  }

  /** A new device or holder comes last, under a descriptor never used before; everything else stays as it is. */
  lemma AdditionsKeep(g: Graph, edit: Edit)
    requires WellFormed(g) && Legal(g, edit) && (edit.AddVertex? || edit.AddEdge?) && !Throws(g, edit)
    ensures var r := After(g, edit);
      && r.next > g.next && g.next !in g.devices && (forall l :: l in g.links ==> l.id != g.next)
      && (edit.AddVertex? ==>
            && r.vertices == g.vertices + [g.next] && r.links == g.links
            && (forall u :: u in r.devices <==> u in g.devices || u == g.next)
            && (forall u :: u in g.devices ==> r.devices[u] == g.devices[u]) && r.devices[g.next] == edit.device)
      && (edit.AddEdge? ==>
            && r.links == g.links + [Link(g.next, edit.source, edit.target, edit.holder)]
            && r.vertices == g.vertices && r.devices == g.devices)
  {
    assert forall l :: l in g.links ==> exists i :: 0 <= i < |g.links| && g.links[i] == l;
  }

  // ----- whole editing sessions

  ghost predicate IsSession(states: seq<Graph>, edits: seq<Edit>) {
    && |states| == |edits| + 1
    && forall i :: 0 <= i < |edits| ==>
      WellFormed(states[i]) && Legal(states[i], edits[i]) && states[i + 1] == After(states[i], edits[i])
  }

  /** Over every sequence of edits that starts without duplicates, none ever appear. */
  lemma {:induction false} NeverTwoOfAKind(states: seq<Graph>, edits: seq<Edit>, i: nat)
    requires IsSession(states, edits) && i < |states|
    requires WellFormed(states[0]) && OnePerKind(states[0].devices, states[0].links)
    ensures WellFormed(states[i]) && OnePerKind(states[i].devices, states[i].links)
  {
    if i > 0 {
      NeverTwoOfAKind(states, edits, i - 1);
      StaysOnePerKind(states[i - 1], edits[i - 1]);
      assert states[i - 1 + 1] == After(states[i - 1], edits[i - 1]);
    }
  }

  // ----- re-targeting

  ghost predicate UniqueSids(g: Graph) {
    forall u, v :: u in g.devices && v in g.devices && g.devices[u].sid == g.devices[v].sid ==> u == v
  }

  /** A holder of this kind joins these very devices. */
  ghost predicate Joined(links: seq<Link>, source: Descriptor, target: Descriptor, kind: nat) {
    exists l :: l in links && l.source == source && l.target == target && l.holder.kind == kind
  }

  /** With unique sids, adding throws exactly if a holder of the kind already joins the very same two devices. */
  lemma ThrowsExactlyWhen(g: Graph, edit: Edit)
    requires WellFormed(g) && UniqueSids(g) && Legal(g, edit)
    ensures match edit
      case AddEdge(s, t, holder) => Throws(g, edit) <==> Joined(g.links, s, t, holder.kind)
      case SetSource(e, s) =>
        var l := LinkWith(g.links, e);
        Throws(g, edit) <==> Joined(g.links, s, l.target, l.holder.kind)
      case SetTarget(e, t) =>
        var l := LinkWith(g.links, e);
        Throws(g, edit) <==> Joined(g.links, l.source, t, l.holder.kind)
      case _ => !Throws(g, edit)
  {
    if edit.AddEdge? || edit.SetSource? || edit.SetTarget? {
      var w := Wanted(g, edit);
      forall l | l in g.links
        ensures Ends(g.devices, l) == Ends(g.devices, w) <==> l.source == w.source && l.target == w.target
      {
      }
    }
  }

  /** Moving a holder to where it already is throws: it finds itself there. */
  lemma MovingNowhereThrows(g: Graph, id: Descriptor)
    requires WellFormed(g) && HasLink(g, id)
    ensures var l := LinkWith(g.links, id);
      && Legal(g, SetSource(id, l.source)) && Throws(g, SetSource(id, l.source))
      && Legal(g, SetTarget(id, l.target)) && Throws(g, SetTarget(id, l.target))
  {
  }

  lemma {:induction false} WithoutOthers(links: seq<Link>, id: Descriptor)
    requires forall i :: 0 <= i < |links| ==> links[i].id != id
    ensures Without(links, id) == links
  {
    if links != [] {
      WithoutOthers(links[..|links| - 1], id);
      assert links == links[..|links| - 1] + [links[|links| - 1]];
    }
  }

  lemma {:induction false} WithoutCounts(links: seq<Link>, i: nat)
    requires i < |links| && forall j, k :: 0 <= j < k < |links| ==> links[j].id != links[k].id
    ensures multiset(links) == multiset(Without(links, links[i].id)) + multiset{links[i]}
  {
    var n, front := |links| - 1, links[..|links| - 1];
    assert links == front + [links[n]];
    if i == n {
      WithoutOthers(front, links[n].id);
    } else {
      assert front[i] == links[i];
      WithoutCounts(front, i);
    }
  }

  /** One holder is put in the place of another. */
  ghost predicate IsExchange(links: seq<Link>, gone: Link, added: Link, after: seq<Link>) {
    && after != [] && after[|after| - 1] == added
    && IsRest(links, {gone}, after[..|after| - 1])
    && multiset(after) + multiset{gone} == multiset(links) + multiset{added}
  }

  lemma ExchangedByAddAndRemove(links: seq<Link>, gone: Link, added: Link)
    requires gone in links && forall j, k :: 0 <= j < k < |links| ==> links[j].id != links[k].id
    requires forall l :: l in links ==> l.id != added.id
    ensures IsExchange(links, gone, added, Without(links + [added], gone.id))
  {
    var rest := Without(links, gone.id);
    WithoutSnoc(links, added, gone.id);
    WithoutGone(links, gone);
    assert (rest + [added])[..|rest|] == rest;
  }

  lemma WithoutGone(links: seq<Link>, gone: Link)
    requires gone in links && forall j, k :: 0 <= j < k < |links| ==> links[j].id != links[k].id
    ensures IsRest(links, {gone}, Without(links, gone.id))
    ensures multiset(Without(links, gone.id)) + multiset{gone} == multiset(links)
  {
    var i :| 0 <= i < |links| && links[i] == gone;
    WithoutCounts(links, i);
    forall l | l in links ensures l in {gone} <==> l.id == gone.id {
      var j :| 0 <= j < |links| && links[j] == l;
    }
    WithoutIsRest(links, gone.id, {gone});
  }

  /**
   * A re-target that goes through: the devices are all as before, and of the holders exactly the moved one is
   * gone; in its place there is one with the same holder contents, the same other end and the new end, which comes
   * last.
   */
  lemma RetargetConserves(g: Graph, edit: Edit)
    requires WellFormed(g) && Legal(g, edit) && (edit.SetSource? || edit.SetTarget?) && !Throws(g, edit)
    ensures var r := After(g, edit); r.vertices == g.vertices && r.devices == g.devices && r.next == g.next + 1
    ensures var gone, r := LinkWith(g.links, edit.edge), After(g, edit);
      var added := if edit.SetSource? then Link(g.next, edit.source, gone.target, gone.holder)
                   else Link(g.next, gone.source, edit.target, gone.holder);
      gone in g.links && gone.id == edit.edge && IsExchange(g.links, gone, added, r.links)
  {
    ExchangedByAddAndRemove(g.links, LinkWith(g.links, edit.edge), Wanted(g, edit));
  }
}
