/** When two devicegraphs are equal, and copies. */
module DevicegraphEquality {

  import opened Sequences
  import opened Matchings
  import opened Actions
  import opened DevicegraphEdits

  function Sids(g: Graph): set<Sid> {
    set v | v in g.devices :: g.devices[v].sid
  }

  ghost function Pairs(g: Graph): set<(Sid, Sid)>
    requires WellFormed(g)
  {
    set l | l in g.links :: Ends(g.devices, l)
  }

  /** The first vertex with a sid. */
  function VertexWith(vertices: seq<Descriptor>, devices: map<Descriptor, Device>, sid: Sid): (v: Descriptor)
    requires forall v :: v in vertices ==> v in devices
    requires exists v :: v in vertices && devices[v].sid == sid
    ensures v in vertices && devices[v].sid == sid
  {
    if devices[vertices[0]].sid == sid then vertices[0] else VertexWith(vertices[1..], devices, sid)
  }

  lemma {:induction false} FirstVertexWith(vertices: seq<Descriptor>, devices: map<Descriptor, Device>, sid: Sid,
                                           i: nat)
    requires forall v :: v in vertices ==> v in devices
    requires i < |vertices| && devices[vertices[i]].sid == sid
    requires forall j :: 0 <= j < i ==> devices[vertices[j]].sid != sid
    ensures VertexWith(vertices, devices, sid) == vertices[i]
  {
    if i > 0 {
      FirstVertexWith(vertices[1..], devices, sid, i - 1);
    }
  }

  function DeviceWith(g: Graph, sid: Sid): Device
    requires WellFormed(g) && sid in Sids(g)
  {
    g.devices[VertexWith(g.vertices, g.devices, sid)]
  }

  function HoldersOf(links: seq<Link>): seq<Holder> {
    seq(|links|, i requires 0 <= i < |links| => links[i].holder)
  }

  function Holders(g: Graph, ends: (Sid, Sid)): seq<Holder>
    requires WellFormed(g)
  {
    HoldersOf(Joining(g.devices, g.links, ends))
  }

  type DeviceEq = (Device, Device) -> bool
  type HolderEq = (Holder, Holder) -> bool

  /** The comparison of two devicegraphs. */
  ghost predicate Same(g: Graph, h: Graph, sameDevice: DeviceEq, sameHolder: HolderEq)
    requires WellFormed(g) && WellFormed(h)
  {
    && Sids(g) == Sids(h)
    && Pairs(g) == Pairs(h)
    && (forall sid :: sid in Sids(g) ==> sameDevice(DeviceWith(g, sid), DeviceWith(h, sid)))
    && (forall ends :: ends in Pairs(g) ==> Permuted(Holders(g, ends), Holders(h, ends), sameHolder))
  }

  // ----- an equivalence

  lemma SameReflexive(g: Graph, sameDevice: DeviceEq, sameHolder: HolderEq)
    requires WellFormed(g) && IsEquivalence(sameDevice) && IsEquivalence(sameHolder)
    ensures Same(g, g, sameDevice, sameHolder)
  {
    forall sid | sid in Sids(g) ensures sameDevice(DeviceWith(g, sid), DeviceWith(g, sid)) {
      assert Coherent(sameDevice, DeviceWith(g, sid), DeviceWith(g, sid), DeviceWith(g, sid));
    }
    forall ends | ends in Pairs(g) ensures Permuted(Holders(g, ends), Holders(g, ends), sameHolder) {
      PermutedReflexive(Holders(g, ends), sameHolder);
    }
  }

  lemma SameSymmetric(g: Graph, h: Graph, sameDevice: DeviceEq, sameHolder: HolderEq)
    requires WellFormed(g) && WellFormed(h) && IsEquivalence(sameDevice) && IsEquivalence(sameHolder)
    requires Same(g, h, sameDevice, sameHolder)
    ensures Same(h, g, sameDevice, sameHolder)
  {
    forall sid | sid in Sids(h) ensures sameDevice(DeviceWith(h, sid), DeviceWith(g, sid)) {
      assert Coherent(sameDevice, DeviceWith(g, sid), DeviceWith(h, sid), DeviceWith(g, sid));
    }
    forall ends | ends in Pairs(h) ensures Permuted(Holders(h, ends), Holders(g, ends), sameHolder) {
      PermutedSymmetric(Holders(g, ends), Holders(h, ends), sameHolder);
    }
  }

  lemma SameTransitive(f: Graph, g: Graph, h: Graph, sameDevice: DeviceEq, sameHolder: HolderEq)
    requires WellFormed(f) && WellFormed(g) && WellFormed(h) && IsEquivalence(sameDevice) && IsEquivalence(sameHolder)
    requires Same(f, g, sameDevice, sameHolder) && Same(g, h, sameDevice, sameHolder)
    ensures Same(f, h, sameDevice, sameHolder)
  {
    forall sid | sid in Sids(f) ensures sameDevice(DeviceWith(f, sid), DeviceWith(h, sid)) {
      assert Coherent(sameDevice, DeviceWith(f, sid), DeviceWith(g, sid), DeviceWith(h, sid));
    }
    forall ends | ends in Pairs(f) ensures Permuted(Holders(f, ends), Holders(h, ends), sameHolder) {
      PermutedTransitive(Holders(f, ends), Holders(g, ends), Holders(h, ends), sameHolder);
    }
  }

  // ----- what it means while no two holders of one kind join the same pair

  /** Holder comparison tells different classes apart. */
  ghost predicate TellsKinds(sameHolder: HolderEq) {
    forall a, b :: sameHolder(a, b) ==> a.kind == b.kind
  }

  /** Every holder of g has an equal one in h, between devices with the same sids. */
  ghost predicate Covered(g: Graph, h: Graph, sameHolder: HolderEq)
    requires WellFormed(g) && WellFormed(h)
  {
    forall l :: l in g.links ==> HasPartner(h, Ends(g.devices, l), l.holder, sameHolder)
  }

  ghost predicate HasPartner(h: Graph, ends: (Sid, Sid), holder: Holder, sameHolder: HolderEq)
    requires WellFormed(h)
  {
    exists m :: m in h.links && Ends(h.devices, m) == ends && sameHolder(holder, m.holder)
  }

  ghost predicate DistinctKinds(s: seq<Holder>) {
    forall i, j :: 0 <= i < j < |s| ==> s[i].kind != s[j].kind
  }

  lemma {:induction false} JoiningThins(devices: map<Descriptor, Device>, links: seq<Link>, ends: (Sid, Sid))
    returns (at: seq<nat>)
    requires Attached(devices, links)
    ensures IsThinning(at, Joining(devices, links, ends), links)
    ensures forall l :: l in Joining(devices, links, ends) <==> l in links && Ends(devices, l) == ends
  {
    if links == [] {
      at := [];
    } else {
      assert links == links[..|links| - 1] + [links[|links| - 1]];
      at := JoiningThins(devices, links[..|links| - 1], ends);
      if Ends(devices, links[|links| - 1]) == ends {
        at := at + [|links| - 1];
      }
    }
  }

  lemma HoldersHaveDistinctKinds(g: Graph, ends: (Sid, Sid))
    requires WellFormed(g) && OnePerKind(g.devices, g.links)
    ensures DistinctKinds(Holders(g, ends))
  {
    var js := Joining(g.devices, g.links, ends);
    var at := JoiningThins(g.devices, g.links, ends);
    forall i, j | 0 <= i < j < |js| ensures js[i].holder.kind != js[j].holder.kind {
      assert js[i] in js && js[j] in js;
      assert js[i] == g.links[at[i]] && js[j] == g.links[at[j]] && at[i] < at[j];
    }
  }

  ghost predicate HasEqual(x: Holder, b: seq<Holder>, sameHolder: HolderEq) {
    exists j :: 0 <= j < |b| && sameHolder(x, b[j])
  }

  ghost predicate Matched(a: seq<Holder>, b: seq<Holder>, sameHolder: HolderEq) {
    forall i :: 0 <= i < |a| ==> HasEqual(a[i], b, sameHolder)
  }

  lemma {:induction false} ChoosePartners(a: seq<Holder>, b: seq<Holder>, sameHolder: HolderEq) returns (p: seq<nat>)
    requires Matched(a, b, sameHolder)
    ensures |p| == |a| && forall i :: 0 <= i < |a| ==> p[i] < |b| && sameHolder(a[i], b[p[i]])
  {
    if a == [] {
      p := [];
    } else {
      var n := |a| - 1;
      p := ChoosePartners(a[..n], b, sameHolder);
      assert HasEqual(a[n], b, sameHolder);
      var j: nat :| j < |b| && sameHolder(a[n], b[j]);
      p := p + [j];
    }
  }

  lemma PermutedGivesPartners(a: seq<Holder>, b: seq<Holder>, sameHolder: HolderEq)
    requires Permuted(a, b, sameHolder)
    ensures Matched(a, b, sameHolder)
  {
    var p :| IsMatching(p, a, b, sameHolder);
    forall i | 0 <= i < |a| ensures HasEqual(a[i], b, sameHolder) {
      assert sameHolder(a[i], b[p[i]]);
    }
  }

  /** Partners of holders of different kinds are at different places. */
  lemma PartnersAreDistinct(a: seq<Holder>, b: seq<Holder>, p: seq<nat>, sameHolder: HolderEq)
    requires DistinctKinds(a) && TellsKinds(sameHolder)
    requires |p| == |a| && forall i :: 0 <= i < |a| ==> p[i] < |b| && sameHolder(a[i], b[p[i]])
    ensures Distinct(p) && |a| <= |b|
  {
    var all: seq<nat> := seq(|b|, i => i);
    forall j: nat | j in p ensures j in all {
      assert all[j] == j;
    }
    DistinctFits(all, p);
  }

  /** For holders of different kinds, a permutation is nothing but partners both ways. */
  lemma PermutedIsMatched(a: seq<Holder>, b: seq<Holder>, sameHolder: HolderEq)
    requires DistinctKinds(a) && DistinctKinds(b) && TellsKinds(sameHolder) && IsEquivalence(sameHolder)
    ensures Permuted(a, b, sameHolder) <==> Matched(a, b, sameHolder) && Matched(b, a, sameHolder)
  {
    if Permuted(a, b, sameHolder) {
      PermutedGivesPartners(a, b, sameHolder);
      PermutedSymmetric(a, b, sameHolder);
      PermutedGivesPartners(b, a, sameHolder);
    }
    if Matched(a, b, sameHolder) && Matched(b, a, sameHolder) {
      var p := ChoosePartners(a, b, sameHolder);
      PartnersAreDistinct(a, b, p, sameHolder);
      var q := ChoosePartners(b, a, sameHolder);
      PartnersAreDistinct(b, a, q, sameHolder);
      assert IsMatching(p, a, b, sameHolder);
    }
  }

  lemma PartnerAmongHolders(h: Graph, ends: (Sid, Sid), holder: Holder, sameHolder: HolderEq)
    requires WellFormed(h)
    ensures HasPartner(h, ends, holder, sameHolder) <==> HasEqual(holder, Holders(h, ends), sameHolder)
  {
    var js := Joining(h.devices, h.links, ends);
    var at := JoiningThins(h.devices, h.links, ends);
    if HasPartner(h, ends, holder, sameHolder) {
      var m :| m in js && sameHolder(holder, m.holder);
      EqualAmong(js, m, holder, sameHolder);
    }
    if HasEqual(holder, HoldersOf(js), sameHolder) {
      var m := AmongEqual(js, holder, sameHolder);
    }
  }

  lemma EqualAmong(js: seq<Link>, m: Link, holder: Holder, sameHolder: HolderEq)
    requires m in js && sameHolder(holder, m.holder)
    ensures HasEqual(holder, HoldersOf(js), sameHolder)
  {
    var j :| 0 <= j < |js| && js[j] == m;
    assert HoldersOf(js)[j] == m.holder;
  }

  lemma AmongEqual(js: seq<Link>, holder: Holder, sameHolder: HolderEq) returns (m: Link)
    requires HasEqual(holder, HoldersOf(js), sameHolder)
    ensures m in js && sameHolder(holder, m.holder)
  {
    var j :| 0 <= j < |HoldersOf(js)| && sameHolder(holder, HoldersOf(js)[j]);
    m := js[j];
  }

  lemma CoveredGivesMatched(g: Graph, h: Graph, ends: (Sid, Sid), sameHolder: HolderEq)
    requires WellFormed(g) && WellFormed(h) && Covered(g, h, sameHolder)
    ensures Matched(Holders(g, ends), Holders(h, ends), sameHolder)
  {
    var js := Joining(g.devices, g.links, ends);
    var at := JoiningThins(g.devices, g.links, ends);
    forall i | 0 <= i < |js| ensures HasEqual(Holders(g, ends)[i], Holders(h, ends), sameHolder) {
      assert js[i] in js;
      PartnerAmongHolders(h, ends, js[i].holder, sameHolder);
    }
  }

  lemma MatchedGivesPartner(g: Graph, h: Graph, l: Link, sameHolder: HolderEq)
    requires WellFormed(g) && WellFormed(h) && l in g.links
    requires Matched(Holders(g, Ends(g.devices, l)), Holders(h, Ends(g.devices, l)), sameHolder)
    ensures HasPartner(h, Ends(g.devices, l), l.holder, sameHolder)
  {
    var ends := Ends(g.devices, l);
    var at := JoiningThins(g.devices, g.links, ends);
    var i :| 0 <= i < |Joining(g.devices, g.links, ends)| && Joining(g.devices, g.links, ends)[i] == l;
    assert HasEqual(Holders(g, ends)[i], Holders(h, ends), sameHolder);
    PartnerAmongHolders(h, ends, l.holder, sameHolder);
  }

  lemma CoveredIsMatched(g: Graph, h: Graph, sameHolder: HolderEq)
    requires WellFormed(g) && WellFormed(h)
    ensures Covered(g, h, sameHolder) <==>
      forall ends :: ends in Pairs(g) ==> Matched(Holders(g, ends), Holders(h, ends), sameHolder)
  {
    if Covered(g, h, sameHolder) {
      forall ends | ends in Pairs(g) ensures Matched(Holders(g, ends), Holders(h, ends), sameHolder) {
        CoveredGivesMatched(g, h, ends, sameHolder);
      }
    }
    if forall ends :: ends in Pairs(g) ==> Matched(Holders(g, ends), Holders(h, ends), sameHolder) {
      forall l | l in g.links ensures HasPartner(h, Ends(g.devices, l), l.holder, sameHolder) {
        assert Ends(g.devices, l) in Pairs(g);
        MatchedGivesPartner(g, h, l, sameHolder);
      }
    }
  }

  /**
   * As long as no two holders of one kind join the same pair, equality of graphs is: the same sids, equal
   * devices, and for every holder on either side an equal one on the other.
   */
  lemma SameMeans(g: Graph, h: Graph, sameDevice: DeviceEq, sameHolder: HolderEq)
    requires WellFormed(g) && WellFormed(h) && TellsKinds(sameHolder) && IsEquivalence(sameHolder)
    requires OnePerKind(g.devices, g.links) && OnePerKind(h.devices, h.links)
    ensures Same(g, h, sameDevice, sameHolder) <==>
      && Sids(g) == Sids(h)
      && (forall sid :: sid in Sids(g) ==> sameDevice(DeviceWith(g, sid), DeviceWith(h, sid)))
      && Covered(g, h, sameHolder) && Covered(h, g, sameHolder)
  {
    CoveredIsMatched(g, h, sameHolder);
    CoveredIsMatched(h, g, sameHolder);
    forall ends ensures Permuted(Holders(g, ends), Holders(h, ends), sameHolder) <==>
      Matched(Holders(g, ends), Holders(h, ends), sameHolder) && Matched(Holders(h, ends), Holders(g, ends), sameHolder)
    {
      HoldersArePermuted(g, h, ends, sameHolder);
    }
  }

  lemma HoldersArePermuted(g: Graph, h: Graph, ends: (Sid, Sid), sameHolder: HolderEq)
    requires WellFormed(g) && WellFormed(h) && TellsKinds(sameHolder) && IsEquivalence(sameHolder)
    requires OnePerKind(g.devices, g.links) && OnePerKind(h.devices, h.links)
    ensures Permuted(Holders(g, ends), Holders(h, ends), sameHolder) <==>
      Matched(Holders(g, ends), Holders(h, ends), sameHolder) && Matched(Holders(h, ends), Holders(g, ends), sameHolder)
  {
    HoldersHaveDistinctKinds(g, ends);
    HoldersHaveDistinctKinds(h, ends);
    PermutedIsMatched(Holders(g, ends), Holders(h, ends), sameHolder);
  }

  // ----- moving a holder there and back

  /** The edit that undoes a re-target: it moves the new edge to where the old one was. */
  function Back(g: Graph, edit: Edit): Edit
    requires edit.SetSource? || edit.SetTarget?
    requires HasLink(g, edit.edge)
  {
    if edit.SetSource? then SetSource(g.next, LinkWith(g.links, edit.edge).source)
    else SetTarget(g.next, LinkWith(g.links, edit.edge).target)
  }

  lemma RetargetMembers(g: Graph, edit: Edit)
    requires WellFormed(g) && Legal(g, edit) && (edit.SetSource? || edit.SetTarget?) && !Throws(g, edit)
    ensures WellFormed(After(g, edit))
    ensures forall l :: l in After(g, edit).links <==> (l in g.links && l.id != edit.edge) || l == Wanted(g, edit)
  {
    StaysWellFormed(g, edit);
    var at := WithoutThins(g.links + [Wanted(g, edit)], edit.edge);
  }

  lemma OnlyOne(g: Graph, l: Link, m: Link)
    requires WellFormed(g) && l in g.links && m in g.links && l.id == m.id
    ensures l == m
  {
  }

  lemma OnlyOneOfAKind(g: Graph, l: Link, m: Link)
    requires WellFormed(g) && OnePerKind(g.devices, g.links) && l in g.links && m in g.links
    requires Ends(g.devices, l) == Ends(g.devices, m) && l.holder.kind == m.holder.kind
    ensures l == m
  {
  }

  /** After a re-target, the place the holder had is free. */
  lemma OldPlaceIsFree(g: Graph, edit: Edit)
    requires WellFormed(g) && OnePerKind(g.devices, g.links)
    requires Legal(g, edit) && (edit.SetSource? || edit.SetTarget?) && !Throws(g, edit)
    ensures var gone := LinkWith(g.links, edit.edge);
      WellFormed(After(g, edit)) && !Taken(g.devices, After(g, edit).links, Ends(g.devices, gone), gone.holder.kind)
  {
    RetargetMembers(g, edit);
    var gone := LinkWith(g.links, edit.edge);
    assert Ends(g.devices, gone) != Ends(g.devices, Wanted(g, edit));
    forall l | l in After(g, edit).links
      ensures !(Ends(g.devices, l) == Ends(g.devices, gone) && l.holder.kind == gone.holder.kind)
    {
      if l in g.links && Ends(g.devices, l) == Ends(g.devices, gone) && l.holder.kind == gone.holder.kind {
        OnlyOneOfAKind(g, l, gone);
      }
    }
  }

  lemma BackIsFree(g: Graph, edit: Edit)
    requires WellFormed(g) && OnePerKind(g.devices, g.links)
    requires Legal(g, edit) && (edit.SetSource? || edit.SetTarget?) && !Throws(g, edit)
    ensures WellFormed(After(g, edit)) && Legal(After(g, edit), Back(g, edit)) && !Throws(After(g, edit), Back(g, edit))
    ensures var gone := LinkWith(g.links, edit.edge);
      Wanted(After(g, edit), Back(g, edit)) == Link(g.next + 1, gone.source, gone.target, gone.holder)
  {
    var h, added := After(g, edit), Wanted(g, edit);
    RetargetMembers(g, edit);
    assert added in h.links;
    var i :| 0 <= i < |h.links| && h.links[i] == added;
    OnlyOne(h, LinkWith(h.links, g.next), added);
    OldPlaceIsFree(g, edit);
  }

  lemma ThereAndBackMembers(g: Graph, edit: Edit, again: Link)
    requires WellFormed(g) && OnePerKind(g.devices, g.links)
    requires Legal(g, edit) && (edit.SetSource? || edit.SetTarget?) && !Throws(g, edit)
    requires again == LinkWith(g.links, edit.edge).(id := g.next + 1)
    ensures WellFormed(After(g, edit)) && Legal(After(g, edit), Back(g, edit))
    ensures var r := After(After(g, edit), Back(g, edit));
      && r.vertices == g.vertices && r.devices == g.devices
      && forall l :: l in r.links <==> (l in g.links && l.id != edit.edge) || l == again
  {
    BackIsFree(g, edit);
    RetargetMembers(g, edit);
    RetargetMembers(After(g, edit), Back(g, edit));
  }

  /** Moving a holder and moving it back: nothing throws, and the graph is equal to the original one. */
  lemma ThereAndBack(g: Graph, edit: Edit, sameDevice: DeviceEq, sameHolder: HolderEq)
    requires WellFormed(g) && OnePerKind(g.devices, g.links)
    requires Legal(g, edit) && (edit.SetSource? || edit.SetTarget?) && !Throws(g, edit)
    requires TellsKinds(sameHolder) && IsEquivalence(sameDevice) && IsEquivalence(sameHolder)
    ensures WellFormed(After(g, edit)) && Legal(After(g, edit), Back(g, edit)) && !Throws(After(g, edit), Back(g, edit))
    ensures var r := After(After(g, edit), Back(g, edit));
      WellFormed(r) && Same(r, g, sameDevice, sameHolder)
  {
    BackIsFree(g, edit);
    StaysOnePerKind(g, edit);
    StaysOnePerKind(After(g, edit), Back(g, edit));
    var r, gone := After(After(g, edit), Back(g, edit)), LinkWith(g.links, edit.edge);
    var again := Link(g.next + 1, gone.source, gone.target, gone.holder);
    ThereAndBackMembers(g, edit, again);
    ExchangedIsCovered(g, r, gone, again, sameHolder);
    SameDevices(r, g, sameDevice);
    SameMeans(r, g, sameDevice, sameHolder);
  }

  lemma ExchangedIsCovered(g: Graph, r: Graph, gone: Link, again: Link, sameHolder: HolderEq)
    requires WellFormed(g) && WellFormed(r) && r.devices == g.devices && IsEquivalence(sameHolder)
    requires gone in g.links && again == Link(again.id, gone.source, gone.target, gone.holder)
    requires forall l :: l in r.links <==> (l in g.links && l.id != gone.id) || l == again
    ensures Covered(g, r, sameHolder) && Covered(r, g, sameHolder)
  {
    forall l | l in g.links ensures HasPartner(r, Ends(g.devices, l), l.holder, sameHolder) {
      assert Coherent(sameHolder, l.holder, l.holder, l.holder);
      if l.id == gone.id {
        OnlyOne(g, l, gone);
        assert again in r.links;
      } else {
        assert l in r.links;
      }
    }
    forall m | m in r.links ensures HasPartner(g, Ends(r.devices, m), m.holder, sameHolder) {
      assert Coherent(sameHolder, m.holder, m.holder, m.holder);
      assert m == again || m in g.links;
    }
  }

  lemma SameDevices(g: Graph, h: Graph, sameDevice: DeviceEq)
    requires WellFormed(g) && WellFormed(h) && IsEquivalence(sameDevice)
    requires g.vertices == h.vertices && g.devices == h.devices
    ensures Sids(g) == Sids(h)
    ensures forall sid :: sid in Sids(g) ==> sameDevice(DeviceWith(g, sid), DeviceWith(h, sid))
  {
    forall sid | sid in Sids(g) ensures sameDevice(DeviceWith(g, sid), DeviceWith(h, sid)) {
      assert Coherent(sameDevice, DeviceWith(g, sid), DeviceWith(g, sid), DeviceWith(g, sid));
    }
  }

  // ----- copies

  /** The copy has the same devices and holders in the same order, at other vertices. */
  ghost predicate IsCopy(g: Graph, h: Graph, copyOf: map<Descriptor, Descriptor>) {
    && |g.vertices| == |h.vertices| && |g.links| == |h.links|
    && VerticesCopied(g.vertices, g.devices, h.vertices, h.devices, copyOf)
    && forall i :: 0 <= i < |g.links| ==> LinkCopied(g.links[i], h.links[i], copyOf)
  }

  /** The vertices ws, with their devices, are copies of the first ones of vs. */
  ghost predicate VerticesCopied(vs: seq<Descriptor>, devices: map<Descriptor, Device>, ws: seq<Descriptor>,
                                 devices': map<Descriptor, Device>, copyOf: map<Descriptor, Descriptor>)
  {
    && |ws| <= |vs|
    && forall i :: 0 <= i < |ws| ==> VertexCopied(vs[i], devices, ws[i], devices', copyOf)
  }

  ghost predicate VertexCopied(v: Descriptor, devices: map<Descriptor, Device>, w: Descriptor,
                               devices': map<Descriptor, Device>, copyOf: map<Descriptor, Descriptor>)
  {
    v in copyOf && copyOf[v] == w && v in devices && w in devices' && devices'[w] == devices[v]
  }

  lemma OneMoreCopied(vs: seq<Descriptor>, devices: map<Descriptor, Device>, ws: seq<Descriptor>,
                      devices': map<Descriptor, Device>, copyOf: map<Descriptor, Descriptor>, w: Descriptor)
    requires VerticesCopied(vs, devices, ws, devices', copyOf) && Distinct(vs)
    requires |ws| < |vs| && vs[|ws|] in devices && w !in devices'
    ensures var v := vs[|ws|];
      VerticesCopied(vs, devices, ws + [w], devices'[w := devices[v]], copyOf[v := w])
  {
    var v := vs[|ws|];
    forall i | 0 <= i < |ws| + 1
      ensures VertexCopied(vs[i], devices, (ws + [w])[i], devices'[w := devices[v]], copyOf[v := w])
    {
      if i < |ws| {
        assert VertexCopied(vs[i], devices, ws[i], devices', copyOf);
      }
    }
  }

  lemma EveryVertexCopied(vs: seq<Descriptor>, devices: map<Descriptor, Device>, ws: seq<Descriptor>,
                          devices': map<Descriptor, Device>, copyOf: map<Descriptor, Descriptor>)
    requires VerticesCopied(vs, devices, ws, devices', copyOf) && |ws| == |vs|
    ensures forall v :: v in vs ==> v in copyOf && copyOf[v] in ws
  {
    forall v | v in vs ensures v in copyOf && copyOf[v] in ws {
      var i :| 0 <= i < |vs| && vs[i] == v;
      assert VertexCopied(vs[i], devices, ws[i], devices', copyOf);
    }
  }

  ghost predicate LinkCopied(l: Link, m: Link, copyOf: map<Descriptor, Descriptor>) {
    && l.source in copyOf && m.source == copyOf[l.source]
    && l.target in copyOf && m.target == copyOf[l.target]
    && m.holder == l.holder
  }

  lemma {:induction false} CopiedVertexWith(vs: seq<Descriptor>, ws: seq<Descriptor>, devices: map<Descriptor, Device>,
                                               devices': map<Descriptor, Device>, sid: Sid)
    requires |vs| == |ws|
    requires forall i :: 0 <= i < |vs| ==>
      vs[i] in devices && ws[i] in devices' && devices'[ws[i]] == devices[vs[i]]
    requires exists v :: v in vs && devices[v].sid == sid
    ensures exists w :: w in ws && devices'[w].sid == sid
    ensures devices'[VertexWith(ws, devices', sid)] == devices[VertexWith(vs, devices, sid)]
  {
    var i :| 0 <= i < |vs| && devices[vs[i]].sid == sid;
    assert ws[i] in ws;
    if devices[vs[0]].sid != sid {
      assert vs[1..][i - 1] == vs[i];
      CopiedVertexWith(vs[1..], ws[1..], devices, devices', sid);
    }
  }

  lemma HoldersStep(devices: map<Descriptor, Device>, links: seq<Link>, ends: (Sid, Sid))
    requires Attached(devices, links) && links != []
    ensures var n := |links| - 1;
      && Attached(devices, links[..n])
      && HoldersOf(Joining(devices, links, ends)) ==
         HoldersOf(Joining(devices, links[..n], ends))
         + (if Ends(devices, links[n]) == ends then [links[n].holder] else [])
  {
    assert links[..|links| - 1] <= links;
  }

  lemma {:induction false} CopiedHolders(links: seq<Link>, links': seq<Link>, devices: map<Descriptor, Device>,
                                               devices': map<Descriptor, Device>, ends: (Sid, Sid))
    requires Attached(devices, links) && Attached(devices', links') && |links| == |links'|
    requires forall i :: 0 <= i < |links| ==>
      Ends(devices', links'[i]) == Ends(devices, links[i]) && links'[i].holder == links[i].holder
    ensures HoldersOf(Joining(devices', links', ends)) == HoldersOf(Joining(devices, links, ends))
  {
    if links != [] {
      var n := |links| - 1;
      HoldersStep(devices, links, ends);
      HoldersStep(devices', links', ends);
      CopiedHolders(links[..n], links'[..n], devices, devices', ends);
    }
  }

  /** A copy equals what it was made from, and keeps the holders of one kind unique. */
  lemma CopyIsSame(g: Graph, h: Graph, copyOf: map<Descriptor, Descriptor>,
                                     sameDevice: DeviceEq, sameHolder: HolderEq)
    requires WellFormed(g) && WellFormed(h) && IsCopy(g, h, copyOf)
    requires IsEquivalence(sameDevice) && IsEquivalence(sameHolder)
    ensures Same(g, h, sameDevice, sameHolder)
    ensures OnePerKind(g.devices, g.links) ==> OnePerKind(h.devices, h.links)
  {
    CopiedSids(g, h, copyOf);
    CopiedEnds(g, h, copyOf);
    forall sid | sid in Sids(g) ensures sameDevice(DeviceWith(g, sid), DeviceWith(h, sid)) {
      forall i | 0 <= i < |g.vertices|
        ensures g.vertices[i] in g.devices && h.vertices[i] in h.devices &&
          h.devices[h.vertices[i]] == g.devices[g.vertices[i]]
      {
        assert VertexCopied(g.vertices[i], g.devices, h.vertices[i], h.devices, copyOf);
      }
      CopiedVertexWith(g.vertices, h.vertices, g.devices, h.devices, sid);
      assert Coherent(sameDevice, DeviceWith(g, sid), DeviceWith(g, sid), DeviceWith(g, sid));
    }
    forall ends | ends in Pairs(g) ensures Permuted(Holders(g, ends), Holders(h, ends), sameHolder) {
      CopiedHolders(g.links, h.links, g.devices, h.devices, ends);
      PermutedReflexive(Holders(g, ends), sameHolder);
    }
  }

  lemma CopiedSids(g: Graph, h: Graph, copyOf: map<Descriptor, Descriptor>)
    requires WellFormed(g) && WellFormed(h) && IsCopy(g, h, copyOf)
    ensures Sids(g) == Sids(h)
  {
    forall v | v in g.devices ensures g.devices[v].sid in Sids(h) {
      var i :| 0 <= i < |g.vertices| && g.vertices[i] == v;
      assert VertexCopied(g.vertices[i], g.devices, h.vertices[i], h.devices, copyOf);
    }
    forall w | w in h.devices ensures h.devices[w].sid in Sids(g) {
      var i :| 0 <= i < |h.vertices| && h.vertices[i] == w;
      assert VertexCopied(g.vertices[i], g.devices, h.vertices[i], h.devices, copyOf);
    }
  }

  lemma CopiedDevice(g: Graph, h: Graph, copyOf: map<Descriptor, Descriptor>, v: Descriptor)
    requires IsCopy(g, h, copyOf) && v in g.vertices
    ensures v in copyOf && v in g.devices && copyOf[v] in h.devices && h.devices[copyOf[v]] == g.devices[v]
  {
    var a :| 0 <= a < |g.vertices| && g.vertices[a] == v;
    assert VertexCopied(g.vertices[a], g.devices, h.vertices[a], h.devices, copyOf);
  }

  lemma CopiedLink(g: Graph, h: Graph, copyOf: map<Descriptor, Descriptor>, i: nat)
    requires WellFormed(g) && WellFormed(h) && IsCopy(g, h, copyOf) && i < |g.links|
    ensures Ends(h.devices, h.links[i]) == Ends(g.devices, g.links[i]) && h.links[i].holder == g.links[i].holder
  {
    assert LinkCopied(g.links[i], h.links[i], copyOf) && g.links[i] in g.links;
    CopiedDevice(g, h, copyOf, g.links[i].source);
    CopiedDevice(g, h, copyOf, g.links[i].target);
  }

  lemma CopiedEnds(g: Graph, h: Graph, copyOf: map<Descriptor, Descriptor>)
    requires WellFormed(g) && WellFormed(h) && IsCopy(g, h, copyOf)
    ensures forall i :: 0 <= i < |g.links| ==>
      Ends(h.devices, h.links[i]) == Ends(g.devices, g.links[i]) && h.links[i].holder == g.links[i].holder
    ensures Pairs(g) == Pairs(h)
  {
    forall i | 0 <= i < |g.links|
      ensures Ends(h.devices, h.links[i]) == Ends(g.devices, g.links[i]) && h.links[i].holder == g.links[i].holder
    {
      CopiedLink(g, h, copyOf, i);
    }
    SameEndsSamePairs(g, h);
  }

  lemma SameEndsSamePairs(g: Graph, h: Graph)
    requires WellFormed(g) && WellFormed(h) && |g.links| == |h.links|
    requires forall i :: 0 <= i < |g.links| ==> Ends(h.devices, h.links[i]) == Ends(g.devices, g.links[i])
    ensures Pairs(g) == Pairs(h)
  {
    forall l | l in g.links ensures Ends(g.devices, l) in Pairs(h) {
      var i :| 0 <= i < |g.links| && g.links[i] == l;
      assert h.links[i] in h.links;
    }
    forall l | l in h.links ensures Ends(h.devices, l) in Pairs(g) {
      var i :| 0 <= i < |h.links| && h.links[i] == l;
      assert g.links[i] in g.links;
    }
  }
}
