/** The devicegraph as a mutable object. */
module Devicegraphs {

  import opened Sequences
  import opened Matchings
  import opened Actions
  import opened DevicegraphEdits
  import opened DevicegraphEquality

  class Devicegraph {

    var vertices: seq<Descriptor>
    var devices: map<Descriptor, Device>
    var links: seq<Link>
    var next: Descriptor

    ghost function View(): Graph
      reads this
    {
      Graph(vertices, devices, links, next)
    }

    ghost predicate Valid()
      reads this
    {
      WellFormed(View())
    }

    constructor ()
      ensures Valid() && View() == Graph([], map[], [], 0)
    {
      vertices, devices, links, next := [], map[], [], 0;
    }

    method AddVertex(device: Device) returns (v: Descriptor)
      requires Valid()
      modifies this`vertices, this`devices, this`next
      ensures Valid()
      ensures v == old(next) && View() == After(old(View()), Edit.AddVertex(device))
    {
      StaysWellFormed(View(), Edit.AddVertex(device));
      v := next;
      vertices, devices, next := vertices + [v], devices[v := device], next + 1;
    }

    /** The holders joining two sids. */
    method FindEdges(ends: (Sid, Sid)) returns (found: seq<Link>)
      requires Valid()
      ensures found == Joining(devices, links, ends)
    {
      found := [];
      for i := 0 to |links|
        invariant Attached(devices, links[..i])
        invariant found == Joining(devices, links[..i], ends)
      {
        assert links[..i + 1] == links[..i] + [links[i]];
        assert links[..i + 1][..i] == links[..i];
        if Ends(devices, links[i]) == ends {
          found := found + [links[i]];
        }
      }
      assert links[..|links|] == links;
    }

    /** Appends an edge without any check. */
    method Append(source: Descriptor, target: Descriptor, holder: Holder)
      requires Valid() && source in vertices && target in vertices
      modifies this`links, this`next
      ensures Valid()
      ensures next == old(next) + 1 && links == old(links) + [Link(old(next), source, target, holder)]
    {
      links, next := links + [Link(next, source, target, holder)], next + 1;
    }

    /** Throws if a holder of the same kind already joins the two sids. */
    method AddEdge(source: Descriptor, target: Descriptor, holder: Holder) returns (thrown: bool)
      requires Valid() && source in vertices && target in vertices
      modifies this`links, this`next
      ensures Valid()
      ensures thrown == Throws(old(View()), Edit.AddEdge(source, target, holder))
      ensures View() == After(old(View()), Edit.AddEdge(source, target, holder))
    {
      ghost var w := Link(next, source, target, holder);
      ghost var at := JoiningThins(devices, links, Ends(devices, w));
      var parallel := FindEdges((devices[source].sid, devices[target].sid));
      for i := 0 to |parallel|
        invariant forall j :: 0 <= j < i ==> parallel[j].holder.kind != holder.kind
      {
        if parallel[i].holder.kind == holder.kind {
          assert parallel[i] in parallel;
          return true;
        }
      }
      Append(source, target, holder);
      thrown := false;
    }

    /** Moves a holder to another source: adds a clone there and removes the old edge. */
    method SetSource(edge: Descriptor, source: Descriptor) returns (thrown: bool)
      requires Valid() && HasLink(View(), edge) && source in vertices
      modifies this`links, this`next
      ensures Valid()
      ensures thrown == Throws(old(View()), Edit.SetSource(edge, source))
      ensures View() == After(old(View()), Edit.SetSource(edge, source))
    {
      StaysWellFormed(View(), Edit.SetSource(edge, source));
      var l := LinkWith(links, edge);
      thrown := AddEdge(source, l.target, l.holder);
      if !thrown {
        links := Without(links, edge);
      }
    }

    method SetTarget(edge: Descriptor, target: Descriptor) returns (thrown: bool)
      requires Valid() && HasLink(View(), edge) && target in vertices
      modifies this`links, this`next
      ensures Valid()
      ensures thrown == Throws(old(View()), Edit.SetTarget(edge, target))
      ensures View() == After(old(View()), Edit.SetTarget(edge, target))
    {
      StaysWellFormed(View(), Edit.SetTarget(edge, target));
      var l := LinkWith(links, edge);
      thrown := AddEdge(l.source, target, l.holder);
      if !thrown {
        links := Without(links, edge);
      }
    }

    method RemoveVertex(v: Descriptor)
      requires Valid() && v in vertices
      modifies this`vertices, this`devices, this`links
      ensures Valid()
      ensures View() == After(old(View()), Edit.RemoveVertex(v))
    {
      StaysWellFormed(View(), Edit.RemoveVertex(v));
      links := NotAt(links, v);
      vertices, devices := Dropped(vertices, v), devices - {v};
    }

    method RemoveEdge(edge: Descriptor)
      requires Valid() && HasLink(View(), edge)
      modifies this`links
      ensures Valid()
      ensures View() == After(old(View()), Edit.RemoveEdge(edge))
    {
      StaysWellFormed(View(), Edit.RemoveEdge(edge));
      links := Without(links, edge);
    }

    method Clear()
      modifies this`vertices, this`devices, this`links
      ensures Valid()
      ensures vertices == [] && devices == map[] && links == [] && next == old(next)
    {
      vertices, devices, links := [], map[], [];
    }

    // ----- copies

    /** Replaces the contents of dest by a copy; copying a graph onto itself empties it. */
    method Copy(dest: Devicegraph) returns (ghost copyOf: map<Descriptor, Descriptor>)
      requires Valid() && dest.Valid()
      modifies dest
      ensures Valid() && dest.Valid()
      ensures dest != this ==> View() == old(View()) && IsCopy(View(), dest.View(), copyOf)
      ensures dest == this ==> vertices == [] && links == []
    {
      dest.Clear();
      ghost var g := View();
      var origToCopy := dest.CopyVertices(vertices, devices);
      dest.CopyEdges(g.vertices, g.devices, links, origToCopy);
      copyOf := origToCopy;
    }

    method CopyVertices(vs: seq<Descriptor>, from: map<Descriptor, Device>)
      returns (copyOf: map<Descriptor, Descriptor>)
      requires Valid() && vertices == [] && links == []
      requires Distinct(vs) && forall v :: v in vs ==> v in from
      modifies this`vertices, this`devices, this`next
      ensures Valid()
      ensures |vertices| == |vs| && VerticesCopied(vs, from, vertices, devices, copyOf)
    {
      copyOf := map[];
      for i := 0 to |vs|
        invariant Valid()
        invariant |vertices| == i && VerticesCopied(vs, from, vertices, devices, copyOf)
      {
        OneMoreCopied(vs, from, vertices, devices, copyOf, next);
        var w := AddVertex(from[vs[i]]);
        copyOf := copyOf[vs[i] := w];
      }
    }

    method CopyEdges(ghost vs: seq<Descriptor>, ghost from: map<Descriptor, Device>, ls: seq<Link>,
                     copyOf: map<Descriptor, Descriptor>)
      requires Valid() && links == []
      requires |vertices| == |vs| && VerticesCopied(vs, from, vertices, devices, copyOf)
      requires forall l :: l in ls ==> l.source in vs && l.target in vs
      modifies this`links, this`next
      ensures Valid()
      ensures |links| == |ls| && forall j :: 0 <= j < |ls| ==> LinkCopied(ls[j], links[j], copyOf)
    {
      EveryVertexCopied(vs, from, vertices, devices, copyOf);
      for i := 0 to |ls|
        invariant Valid()
        invariant |links| == i && forall j :: 0 <= j < i ==> LinkCopied(ls[j], links[j], copyOf)
      {
        var l := ls[i];
        Append(copyOf[l.source], copyOf[l.target], l.holder);
      }
    }

    // ----- comparing

    method DeviceSids() returns (sids: set<Sid>)
      requires Valid()
      ensures sids == Sids(View())
    {
      sids := {};
      for i := 0 to |vertices|
        invariant sids == set v | v in vertices[..i] :: devices[v].sid
      {
        assert vertices[..i + 1] == vertices[..i] + [vertices[i]];
        sids := sids + {devices[vertices[i]].sid};
      }
      assert vertices[..|vertices|] == vertices;
    }

    method HolderSidPairs() returns (pairs: set<(Sid, Sid)>)
      requires Valid()
      ensures pairs == Pairs(View())
    {
      pairs := {};
      for i := 0 to |links|
        invariant pairs == set l | l in links[..i] :: Ends(devices, l)
      {
        assert links[..i + 1] == links[..i] + [links[i]];
        pairs := pairs + {Ends(devices, links[i])};
      }
      assert links[..|links|] == links;
    }

    /** The first vertex with the sid; not finding any is an error. */
    method FindVertex(sid: Sid) returns (found: bool, v: Descriptor)
      requires Valid()
      ensures found <==> sid in Sids(View())
      ensures found ==> v == VertexWith(vertices, devices, sid)
    {
      for i := 0 to |vertices|
        invariant forall j :: 0 <= j < i ==> devices[vertices[j]].sid != sid
      {
        if devices[vertices[i]].sid == sid {
          FirstVertexWith(vertices, devices, sid, i);
          return true, vertices[i];
        }
      }
      found, v := false, 0;
    }

    method Equals(rhs: Devicegraph, sameDevice: DeviceEq, sameHolder: HolderEq) returns (r: bool)
      requires Valid() && rhs.Valid() && IsEquivalence(sameHolder)
      ensures r == DevicegraphEquality.Same(View(), rhs.View(), sameDevice, sameHolder)
    {
      var sids := DeviceSids();
      var rhsSids := rhs.DeviceSids();
      if sids != rhsSids {
        return false;
      }
      var pairs := HolderSidPairs();
      var rhsPairs := rhs.HolderSidPairs();
      if pairs != rhsPairs {
        return false;
      }
      var devicesSame := EqualDevices(rhs, sids, sameDevice);
      if !devicesSame {
        return false;
      }
      r := EqualHolders(rhs, pairs, sameHolder);
    }

    method EqualDevices(rhs: Devicegraph, sids: set<Sid>, sameDevice: DeviceEq) returns (r: bool)
      requires Valid() && rhs.Valid() && sids == Sids(View()) == Sids(rhs.View())
      ensures r <==> forall sid :: sid in sids ==> sameDevice(DeviceWith(View(), sid), DeviceWith(rhs.View(), sid))
    {
      var rest := sids;
      while rest != {}
        invariant rest <= sids
        invariant forall sid :: sid in sids && sid !in rest ==>
          sameDevice(DeviceWith(View(), sid), DeviceWith(rhs.View(), sid))
      {
        var sid :| sid in rest;
        var _, v := FindVertex(sid);
        var _, w := rhs.FindVertex(sid);
        if !sameDevice(devices[v], rhs.devices[w]) {
          return false;
        }
        rest := rest - {sid};
      }
      r := true;
    }

    method EqualHolders(rhs: Devicegraph, pairs: set<(Sid, Sid)>, sameHolder: HolderEq) returns (r: bool)
      requires Valid() && rhs.Valid() && IsEquivalence(sameHolder)
      ensures r <==> forall ends :: ends in pairs ==>
        Permuted(Holders(View(), ends), Holders(rhs.View(), ends), sameHolder)
    {
      var rest := pairs;
      while rest != {}
        invariant rest <= pairs
        invariant forall ends :: ends in pairs && ends !in rest ==>
          Permuted(Holders(View(), ends), Holders(rhs.View(), ends), sameHolder)
      {
        var ends :| ends in rest;
        var lhsEdges := FindEdges(ends);
        var rhsEdges := rhs.FindEdges(ends);
        var permuted := IsPermutation(HoldersOf(lhsEdges), HoldersOf(rhsEdges), sameHolder);
        if !permuted {
          return false;
        }
        rest := rest - {ends};
      }
      r := true;
    }
  }
}
