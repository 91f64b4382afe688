/** Path ancestors as find_mount_parent computes them, and the links between recorded mounts. */
module MountPaths {

  import opened Wrappers
  import opened Reachability
  import opened Actions

  /** The position of the last '/' in s, or -1. */
  function LastSlash(s: string): (pos: int)
    ensures -1 <= pos < |s|
    ensures pos >= 0 ==> s[pos] == '/'
    ensures forall i :: pos < i < |s| ==> s[i] != '/'
  {
    if s == "" then -1
    else if s[|s| - 1] == '/' then |s| - 1
    else LastSlash(s[..|s| - 1])
  }

  /** a is a proper path ancestor of b: the root, or a prefix that ends just before a slash of b. */
  predicate IsAncestor(a: string, b: string) {
    && b != "/"
    && if a == "/" then b != "" && b[0] == '/' else a != "" && a + "/" <= b
  }

  /** One round of the loop: what is left of a path when its last component is cut off. */
  function Cut(b: string): (p: string)
    requires LastSlash(b) >= 0
  {
    if LastSlash(b) == 0 then "/" else b[..LastSlash(b)]
  }

  /** The ancestors of b are its cut path and the ancestors of that. */
  lemma AncestorStep(a: string, b: string)
    requires b != "/" && LastSlash(b) >= 0
    ensures IsAncestor(a, b) <==> a == Cut(b) || IsAncestor(a, Cut(b))
  {
    var pos, p := LastSlash(b), Cut(b);
    if IsAncestor(a, b) && a != "/" {
      assert b[|a|] == (a + "/")[|a|] == '/';
      assert |a| <= pos;
      if |a| == pos {
        assert a == b[..pos];
      } else {
        assert a + "/" <= b[..pos];
      }
    }
    if a == p && p != "/" {
      assert a + "/" == b[..pos + 1];
    }
    if IsAncestor(a, p) && a != "/" {
      assert a + "/" <= b[..pos];
    }
  }

  lemma AncestorHasSlash(a: string, b: string)
    requires IsAncestor(a, b)
    ensures LastSlash(b) >= 0
  {
    if a != "/" {
      assert b[|a|] == (a + "/")[|a|];
    }
  }

  /** a is the recorded path closest above b. */
  ghost predicate IsNearest(recorded: set<string>, a: string, b: string) {
    && a in recorded && IsAncestor(a, b)
    && forall x :: x in recorded && IsAncestor(x, b) ==> x == a || IsAncestor(x, a)
  }

  /** es has an edge from the nearest recorded ancestor to every recorded mount that has one. */
  ghost predicate LinksNearest(es: set<Edge>, mounts: map<string, Vertex>) {
    forall a, b :: a in mounts && b in mounts && IsNearest(mounts.Keys, a, b) ==> Edge(mounts[a], mounts[b]) in es
  }

  ghost predicate LinksNearestBackward(es: set<Edge>, unmounts: map<string, Vertex>) {
    forall a, b :: a in unmounts && b in unmounts && IsNearest(unmounts.Keys, a, b)
      ==> Edge(unmounts[b], unmounts[a]) in es
  }

  lemma {:induction false} NearestExists(recorded: set<string>, a: string, b: string) returns (n: string)
    requires a in recorded && IsAncestor(a, b)
    ensures IsNearest(recorded, n, b) && (n == a || IsAncestor(a, n))
    decreases |b|
  {
    AncestorHasSlash(a, b);
    var p := Cut(b);
    forall x ensures IsAncestor(x, b) <==> x == p || IsAncestor(x, p) {
      AncestorStep(x, b);
    }
    if p in recorded {
      n := p;
    } else {
      n := NearestExists(recorded, a, p);
    }
  }

  /** The nearest-ancestor links generate the whole ancestor relation between recorded mounts. */
  lemma {:induction false} LinksReachEveryDescendant(es: set<Edge>, mounts: map<string, Vertex>, a: string, b: string)
    requires LinksNearest(es, mounts)
    requires a in mounts && b in mounts && IsAncestor(a, b)
    ensures Reaches(es, mounts[a], mounts[b])
    decreases |b|
  {
    var n := NearestExists(mounts.Keys, a, b);
    assert |n| < |b|;
    StepReaches(es, mounts[n], mounts[b]);
    if n != a {
      LinksReachEveryDescendant(es, mounts, a, n);
      ReachesTrans(es, mounts[a], mounts[n], mounts[b]);
    }
  }

  /** For unmounting the links run the other way: inner before outer. */
  lemma {:induction false} LinksReachEveryAncestor(es: set<Edge>, unmounts: map<string, Vertex>, a: string, b: string)
    requires LinksNearestBackward(es, unmounts)
    requires a in unmounts && b in unmounts && IsAncestor(a, b)
    ensures Reaches(es, unmounts[b], unmounts[a])
    decreases |b|
  {
    var n := NearestExists(unmounts.Keys, a, b);
    assert |n| < |b|;
    StepReaches(es, unmounts[b], unmounts[n]);
    if n != a {
      LinksReachEveryAncestor(es, unmounts, a, n);
      ReachesTrans(es, unmounts[b], unmounts[n], unmounts[a]);
    }
  }

  // ----- recording and linking

  /** The last vertex mounting each non-swap path. */
  function RecordedMounts(vertices: seq<Vertex>, actions: map<Vertex, Action>): map<string, Vertex> {
    if vertices == [] then map[]
    else
      var v := vertices[|vertices| - 1];
      var before := RecordedMounts(vertices[..|vertices| - 1], actions);
      if v in actions && actions[v].kind.Mount? && !actions[v].kind.swap
      then before[actions[v].kind.path := v]
      else before
  }

  function RecordedUnmounts(vertices: seq<Vertex>, actions: map<Vertex, Action>): map<string, Vertex> {
    if vertices == [] then map[]
    else
      var v := vertices[|vertices| - 1];
      var before := RecordedUnmounts(vertices[..|vertices| - 1], actions);
      if v in actions && actions[v].kind.Unmount? && !actions[v].kind.swap
      then before[actions[v].kind.path := v]
      else before
  }

  /** Every non-swap mounted path is recorded, by an action that mounts it. */
  lemma {:induction false} RecordedAreVertices(vertices: seq<Vertex>, actions: map<Vertex, Action>)
    ensures forall p :: p in RecordedMounts(vertices, actions) ==>
      var v := RecordedMounts(vertices, actions)[p];
      v in vertices && v in actions && actions[v].kind.Mount? && !actions[v].kind.swap && actions[v].kind.path == p
    ensures forall p :: p in RecordedUnmounts(vertices, actions) ==>
      var v := RecordedUnmounts(vertices, actions)[p];
      v in vertices && v in actions && actions[v].kind.Unmount? && !actions[v].kind.swap && actions[v].kind.path == p
    ensures forall v :: v in vertices && v in actions && actions[v].kind.Mount? && !actions[v].kind.swap ==>
      actions[v].kind.path in RecordedMounts(vertices, actions)
    ensures forall v :: v in vertices && v in actions && actions[v].kind.Unmount? && !actions[v].kind.swap ==>
      actions[v].kind.path in RecordedUnmounts(vertices, actions)
  {
    if vertices != [] {
      RecordedAreVertices(vertices[..|vertices| - 1], actions);
      assert vertices == vertices[..|vertices| - 1] + [vertices[|vertices| - 1]];
    }
  }

  predicate MountsAt(actions: map<Vertex, Action>, path: string, v: Vertex) {
    v in actions && actions[v].kind.Mount? && !actions[v].kind.swap && actions[v].kind.path == path
  }

  predicate UnmountsAt(actions: map<Vertex, Action>, path: string, v: Vertex) {
    v in actions && actions[v].kind.Unmount? && !actions[v].kind.swap && actions[v].kind.path == path
  }

  /** v is the last vertex that mounts the path. */
  ghost predicate IsLastMount(vertices: seq<Vertex>, actions: map<Vertex, Action>, path: string, v: Vertex) {
    exists i :: IsLastMountAt(vertices, actions, path, v, i)
  }

  ghost predicate IsLastMountAt(vertices: seq<Vertex>, actions: map<Vertex, Action>, path: string, v: Vertex, i: int) {
    && 0 <= i < |vertices| && vertices[i] == v && MountsAt(actions, path, v)
    && forall j :: i < j < |vertices| ==> !MountsAt(actions, path, vertices[j])
  }

  ghost predicate IsLastUnmount(vertices: seq<Vertex>, actions: map<Vertex, Action>, path: string, v: Vertex) {
    exists i :: IsLastUnmountAt(vertices, actions, path, v, i)
  }

  ghost predicate IsLastUnmountAt(vertices: seq<Vertex>, actions: map<Vertex, Action>, path: string, v: Vertex,
                                  i: int)
  {
    && 0 <= i < |vertices| && vertices[i] == v && UnmountsAt(actions, path, v)
    && forall j :: i < j < |vertices| ==> !UnmountsAt(actions, path, vertices[j])
  }

  lemma LastMountSnoc(front: seq<Vertex>, actions: map<Vertex, Action>, path: string, last: Vertex, v: Vertex)
    ensures IsLastMount(front + [last], actions, path, v) <==>
            if MountsAt(actions, path, last) then v == last else IsLastMount(front, actions, path, v)
  {
    var list := front + [last];
    if i :| IsLastMountAt(front, actions, path, v, i) && !MountsAt(actions, path, last) {
      assert IsLastMountAt(list, actions, path, v, i);
    }
    if v == last && MountsAt(actions, path, last) {
      assert IsLastMountAt(list, actions, path, v, |front|);
    }
    if i :| IsLastMountAt(list, actions, path, v, i) && i < |front| {
      assert list[|front|] == last && forall j :: 0 <= j < |front| ==> front[j] == list[j];
      assert IsLastMountAt(front, actions, path, v, i);
    }
  }

  lemma LastUnmountSnoc(front: seq<Vertex>, actions: map<Vertex, Action>, path: string, last: Vertex, v: Vertex)
    ensures IsLastUnmount(front + [last], actions, path, v) <==>
            if UnmountsAt(actions, path, last) then v == last else IsLastUnmount(front, actions, path, v)
  {
    var list := front + [last];
    if i :| IsLastUnmountAt(front, actions, path, v, i) && !UnmountsAt(actions, path, last) {
      assert IsLastUnmountAt(list, actions, path, v, i);
    }
    if v == last && UnmountsAt(actions, path, last) {
      assert IsLastUnmountAt(list, actions, path, v, |front|);
    }
    if i :| IsLastUnmountAt(list, actions, path, v, i) && i < |front| {
      assert list[|front|] == last && forall j :: 0 <= j < |front| ==> front[j] == list[j];
      assert IsLastUnmountAt(front, actions, path, v, i);
    }
  }

  /** Which action stands for a path: the last one that mounts it, or unmounts it, and none exactly if none does. */
  lemma {:induction false} RecordedExactly(vertices: seq<Vertex>, actions: map<Vertex, Action>, path: string,
                                           v: Vertex)
    ensures (path, v) in RecordedMounts(vertices, actions).Items <==> IsLastMount(vertices, actions, path, v)
    ensures (path, v) in RecordedUnmounts(vertices, actions).Items <==> IsLastUnmount(vertices, actions, path, v)
  {
    if vertices != [] {
      var front, last := vertices[..|vertices| - 1], vertices[|vertices| - 1];
      assert vertices == front + [last];
      RecordedExactly(front, actions, path, v);
      LastMountSnoc(front, actions, path, last, v);
      LastUnmountSnoc(front, actions, path, last, v);
    }
  }

  /** e leads to the child from its nearest recorded ancestor. */
  ghost predicate IsLinkFrom(recorded: map<string, Vertex>, children: set<string>, e: Edge) {
    exists a, b :: a in recorded && b in recorded && b in children && IsNearest(recorded.Keys, a, b)
      && e == Edge(recorded[a], recorded[b])
  }

  ghost predicate IsMountLink(recorded: map<string, Vertex>, e: Edge) {
    IsLinkFrom(recorded, recorded.Keys, e)
  }

  /** The links of all recorded mounts. */
  ghost function MountLinks(recorded: map<string, Vertex>): set<Edge> {
    set a, b | a in recorded && b in recorded && IsNearest(recorded.Keys, a, b) :: Edge(recorded[a], recorded[b])
  }

  /** The links of all recorded unmounts, the other way round. */
  ghost function UnmountLinks(recorded: map<string, Vertex>): set<Edge> {
    set a, b | a in recorded && b in recorded && IsNearest(recorded.Keys, a, b) :: Edge(recorded[b], recorded[a])
  }

  lemma LinksAreLinks(recorded: map<string, Vertex>, e: Edge)
    ensures e in MountLinks(recorded) <==> IsMountLink(recorded, e)
    ensures e in UnmountLinks(recorded) <==> IsMountLink(recorded, Edge(e.target, e.source))
  {
  }

  lemma NearestUnique(recorded: set<string>, a: string, a': string, b: string)
    requires IsNearest(recorded, a, b) && IsNearest(recorded, a', b)
    ensures a == a'
  {
  }

  /** Handling one more child adds its link, if it has one. */
  lemma LinkOfChild(recorded: map<string, Vertex>, done: set<string>, child: string, parent: Option<string>, e: Edge)
    requires child in recorded
    requires parent.Some? ==> IsNearest(recorded.Keys, parent.value, child)
    requires parent.None? ==> forall a :: a in recorded ==> !IsAncestor(a, child)
    ensures IsLinkFrom(recorded, done + {child}, e) <==>
      IsLinkFrom(recorded, done, e) || (parent.Some? && e == Edge(recorded[parent.value], recorded[child]))
  {
    if IsLinkFrom(recorded, done + {child}, e) {
      var a, b :| a in recorded && b in recorded && b in done + {child} && IsNearest(recorded.Keys, a, b)
        && e == Edge(recorded[a], recorded[b]);
      if b == child && parent.Some? {
        NearestUnique(recorded.Keys, a, parent.value, child);
      }
    }
  }
}
