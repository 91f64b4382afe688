/** Merging duplicate mount and unmount actions: the graph becomes a quotient of itself. */
module Merging {

  import opened Reachability
  import opened Actions
  import opened Sequences
  import opened KahnOrder
  import opened Contraction

  /** The representative of x under a map from duplicates to the vertices kept for them. */
  function RepOf(rep: map<Vertex, Vertex>, x: Vertex): Vertex {
    if x in rep then rep[x] else x
  }

  /** Every edge with its ends replaced by their representatives. */
  ghost function Quotient(es: set<Edge>, rep: map<Vertex, Vertex>): set<Edge> {
    set e | e in es :: Edge(RepOf(rep, e.source), RepOf(rep, e.target))
  }

  ghost predicate IsImage(edges: seq<Edge>, rep: map<Vertex, Vertex>, e: Edge) {
    exists f :: f in edges && e == Edge(RepOf(rep, f.source), RepOf(rep, f.target))
  }

  /**
   * What remove_duplicates does for one pair, on edge lists: the children are read after the parents' edges
   * came in.
   */
  function MergeList(edges: seq<Edge>, keep: Vertex, dup: Vertex): seq<Edge> {
    var es1 := edges + FanIn(Parents(edges, dup), keep);
    Without(es1 + Fan(keep, Children(es1, dup)), dup)
  }

  lemma MergeListMembers(edges: seq<Edge>, keep: Vertex, dup: Vertex, e: Edge)
    requires keep != dup
    ensures e in MergeList(edges, keep, dup) <==> IsImage(edges, map[dup := keep], e)
  {
    var ps := Parents(edges, dup);
    var es1 := edges + FanIn(ps, keep);
    var cs := Children(es1, dup);
    WithoutMembers(es1 + Fan(keep, cs), dup, e);
    FanInMembers(ps, keep, e);
    FanInMembers(ps, keep, Edge(dup, e.target));
    FanMembers(keep, cs, e);
    ParentsAreSources(edges, dup, e.source);
    ParentsAreSources(edges, dup, dup);
    ChildrenAreTargets(es1, dup, e.target);
    if e in MergeList(edges, keep, dup) {
      if e in edges {
      } else if e in FanIn(ps, keep) {
        assert Edge(e.source, dup) in edges;
      } else if Edge(dup, e.target) in edges {
        assert e.source == keep;
      } else {
        assert Edge(dup, dup) in edges;
      }
    }
    if IsImage(edges, map[dup := keep], e) {
      var f :| f in edges && e == Edge(RepOf(map[dup := keep], f.source), RepOf(map[dup := keep], f.target));
      assert f == Edge(f.source, f.target);
    }
  }

  /** Merging dup into keep makes the edge relation the quotient that identifies the two. */
  lemma MergeListIsQuotient(edges: seq<Edge>, keep: Vertex, dup: Vertex)
    requires keep != dup
    ensures Support(MergeList(edges, keep, dup)) == Quotient(Support(edges), map[dup := keep])
  {
    forall e ensures e in MergeList(edges, keep, dup) <==> e in Quotient(Support(edges), map[dup := keep]) {
      MergeListMembers(edges, keep, dup, e);
      if IsImage(edges, map[dup := keep], e) {
        var f :| f in edges && e == Edge(RepOf(map[dup := keep], f.source), RepOf(map[dup := keep], f.target));
        assert f in Support(edges);
      }
    }
  }

  lemma QuotientCompose(es: set<Edge>, rep: map<Vertex, Vertex>, keep: Vertex, dup: Vertex)
    requires keep !in rep && dup !in rep && dup !in rep.Values && keep != dup
    ensures Quotient(Quotient(es, rep), map[dup := keep]) == Quotient(es, rep[dup := keep])
  {
    var one, two := map[dup := keep], rep[dup := keep];
    forall x ensures RepOf(one, RepOf(rep, x)) == RepOf(two, x) {
      if x in rep {
        assert rep[x] in rep.Values;
      }
    }
    forall e ensures e in Quotient(Quotient(es, rep), one) <==> e in Quotient(es, two) {
      if e in Quotient(es, two) {
        var f :| f in es && e == Edge(RepOf(two, f.source), RepOf(two, f.target));
        assert Edge(RepOf(rep, f.source), RepOf(rep, f.target)) in Quotient(es, rep);
      }
    }
  }

  // ----- reachability in the quotient

  /** A walk in es that may jump between a vertex and its representative before and after every edge. */
  ghost predicate JumpWalk(es: set<Edge>, rep: map<Vertex, Vertex>, n: nat, u: Vertex, v: Vertex)
    decreases n, 1
  {
    n > 0 && exists e :: e in es && JumpStep(es, rep, n, u, e, v)
  }

  ghost predicate JumpStep(es: set<Edge>, rep: map<Vertex, Vertex>, n: nat, u: Vertex, e: Edge, v: Vertex)
    requires n > 0
    decreases n, 0
  {
    && RepOf(rep, e.source) == RepOf(rep, u)
    && (if n == 1 then RepOf(rep, e.target) == RepOf(rep, v) else JumpWalk(es, rep, n - 1, e.target, v))
  }

  lemma {:induction false} QuotientWalks(es: set<Edge>, rep: map<Vertex, Vertex>, n: nat, u: Vertex, v: Vertex)
    ensures Walk(Quotient(es, rep), n, RepOf(rep, u), RepOf(rep, v)) <==> JumpWalk(es, rep, n, u, v)
    decreases n
  {
    var q := Quotient(es, rep);
    var a, b := RepOf(rep, u), RepOf(rep, v);
    if n > 0 && Walk(q, n, a, b) {
      var w := b;
      if n > 1 {
        w :| Edge(a, w) in q && Walk(q, n - 1, w, b);
      }
      var e :| e in es && Edge(a, w) == Edge(RepOf(rep, e.source), RepOf(rep, e.target));
      QuotientWalks(es, rep, n - 1, e.target, v);
      assert JumpStep(es, rep, n, u, e, v);
    }
    if n > 0 && JumpWalk(es, rep, n, u, v) {
      var e :| e in es && JumpStep(es, rep, n, u, e, v);
      assert Edge(a, RepOf(rep, e.target)) in q;
      QuotientWalks(es, rep, n - 1, e.target, v);
    }
  }

  /** Every ordering that existed before the merge exists between the representatives. */
  lemma {:induction false} QuotientKeepsWalk(es: set<Edge>, rep: map<Vertex, Vertex>, n: nat, u: Vertex, v: Vertex)
    requires Walk(es, n, u, v)
    ensures Reaches(Quotient(es, rep), RepOf(rep, u), RepOf(rep, v))
    decreases n
  {
    var q := Quotient(es, rep);
    var w: Vertex := v;
    if n > 1 {
      w :| Edge(u, w) in es && Walk(es, n - 1, w, v);
    }
    assert Edge(u, w) in es;
    StepReaches(q, RepOf(rep, u), RepOf(rep, w));
    if n > 1 {
      QuotientKeepsWalk(es, rep, n - 1, w, v);
      ReachesTrans(q, RepOf(rep, u), RepOf(rep, w), RepOf(rep, v));
    }
  }

  // ----- which actions are duplicates

  /** Two mounts, or two unmounts, of the same device. */
  predicate Same(actions: map<Vertex, Action>, u: Vertex, v: Vertex) {
    && u in actions && v in actions
    && actions[u].sid == actions[v].sid
    && ((actions[u].kind.Mount? && actions[v].kind.Mount?) || (actions[u].kind.Unmount? && actions[v].kind.Unmount?))
  }

  /** No device is mounted, or unmounted, by three actions: a third copy would be visited after its removal. */
  ghost predicate AtMostTwo(actions: map<Vertex, Action>) {
    forall u, v, w {:trigger Same(actions, u, v), Same(actions, v, w)} ::
      u != v && v != w && u != w ==> !(Same(actions, u, v) && Same(actions, v, w))
  }

  type Pair = (Vertex, Vertex)

  /** The duplicates of vertex number i found up to (not including) position j. */
  function PairsWith(vertices: seq<Vertex>, actions: map<Vertex, Action>, i: nat, j: nat): seq<Pair>
    requires i < j <= |vertices|
  {
    if j == i + 1 then []
    else
      PairsWith(vertices, actions, i, j - 1) +
      (if Same(actions, vertices[i], vertices[j - 1]) then [(vertices[i], vertices[j - 1])] else [])
  }

  function PairsBefore(vertices: seq<Vertex>, actions: map<Vertex, Action>, i: nat): seq<Pair>
    requires i <= |vertices|
  {
    if i == 0 then [] else PairsBefore(vertices, actions, i - 1) + PairsWith(vertices, actions, i - 1, |vertices|)
  }

  /** p is the duplicate pair at positions a and b. */
  ghost predicate IsPair(vertices: seq<Vertex>, actions: map<Vertex, Action>, a: nat, b: nat, p: Pair) {
    a < b < |vertices| && p == (vertices[a], vertices[b]) && Same(actions, vertices[a], vertices[b])
  }

  ghost predicate IsPairUpTo(vertices: seq<Vertex>, actions: map<Vertex, Action>, a: nat, j: nat, p: Pair)
    requires j <= |vertices|
  {
    exists b :: a < b < j && IsPair(vertices, actions, a, b, p)
  }

  lemma PairUpToStep(vertices: seq<Vertex>, actions: map<Vertex, Action>, a: nat, j: nat, p: Pair)
    requires a < j < |vertices|
    ensures IsPairUpTo(vertices, actions, a, j + 1, p) <==>
      IsPairUpTo(vertices, actions, a, j, p) || IsPair(vertices, actions, a, j, p)
  {
  }

  lemma {:induction false} PairsWithMembers(vertices: seq<Vertex>, actions: map<Vertex, Action>, i: nat, j: nat,
                                            p: Pair)
    requires i < j <= |vertices|
    ensures p in PairsWith(vertices, actions, i, j) <==> IsPairUpTo(vertices, actions, i, j, p)
    decreases j
  {
    if j > i + 1 {
      PairsWithMembers(vertices, actions, i, j - 1, p);
      PairUpToStep(vertices, actions, i, j - 1, p);
    }
  }

  /** The list holds every pair whose earlier member comes before position i. */
  lemma {:induction false} PairListed(vertices: seq<Vertex>, actions: map<Vertex, Action>, i: nat, a: nat, p: Pair)
    requires a < i <= |vertices| && IsPairUpTo(vertices, actions, a, |vertices|, p)
    ensures p in PairsBefore(vertices, actions, i)
    decreases i
  {
    if a == i - 1 {
      PairsWithMembers(vertices, actions, a, |vertices|, p);
    } else {
      PairListed(vertices, actions, i - 1, a, p);
    }
  }

  /** And nothing else: a pair of the list, with its positions. */
  lemma {:induction false} PairPositions(vertices: seq<Vertex>, actions: map<Vertex, Action>, i: nat, p: Pair)
    returns (a: nat, b: nat)
    requires i <= |vertices| && p in PairsBefore(vertices, actions, i)
    ensures a < i && IsPair(vertices, actions, a, b, p)
    decreases i
  {
    if p in PairsBefore(vertices, actions, i - 1) {
      a, b := PairPositions(vertices, actions, i - 1, p);
    } else {
      a := i - 1;
      PairsWithMembers(vertices, actions, a, |vertices|, p);
      b :| a < b < |vertices| && IsPair(vertices, actions, a, b, p);
    }
  }

  lemma SameViaThird(actions: map<Vertex, Action>, u: Vertex, v: Vertex, w: Vertex)
    ensures Same(actions, u, w) && Same(actions, v, w) ==> Same(actions, u, v)
  {
  }

  lemma PairsShareNoSecond(vertices: seq<Vertex>, actions: map<Vertex, Action>, a: nat, b: nat, c: nat, d: nat,
                           p: Pair, q: Pair)
    requires Distinct(vertices) && AtMostTwo(actions)
    requires IsPair(vertices, actions, a, b, p) && IsPair(vertices, actions, c, d, q) && a != c
    ensures p.1 != q.1
  {
    SameViaThird(actions, vertices[a], vertices[c], vertices[b]);
    SameViaThird(actions, vertices[c], vertices[a], vertices[b]);
  }

  lemma SecondIsNoFirst(vertices: seq<Vertex>, actions: map<Vertex, Action>, a: nat, b: nat, c: nat, d: nat,
                        p: Pair, q: Pair)
    requires Distinct(vertices) && AtMostTwo(actions)
    requires IsPair(vertices, actions, a, b, p) && IsPair(vertices, actions, c, d, q)
    ensures p.0 != q.1
  {
  }

  /** No vertex is removed twice. */
  ghost predicate SecondsDistinct(pairs: seq<Pair>) {
    forall x, y :: 0 <= x < y < |pairs| ==> pairs[x].1 != pairs[y].1
  }

  lemma {:induction false} PairsWithDistinct(vertices: seq<Vertex>, actions: map<Vertex, Action>, i: nat, j: nat)
    requires Distinct(vertices) && i < j <= |vertices|
    ensures SecondsDistinct(PairsWith(vertices, actions, i, j))
    decreases j
  {
    if j > i + 1 {
      PairsWithDistinct(vertices, actions, i, j - 1);
      var front := PairsWith(vertices, actions, i, j - 1);
      forall p | p in front ensures p.1 != vertices[j - 1] {
        PairsWithMembers(vertices, actions, i, j - 1, p);
      }
    }
  }

  lemma LaterPairsDiffer(vertices: seq<Vertex>, actions: map<Vertex, Action>, i: nat, p: Pair, q: Pair)
    requires Distinct(vertices) && AtMostTwo(actions) && i < |vertices|
    requires p in PairsBefore(vertices, actions, i) && q in PairsWith(vertices, actions, i, |vertices|)
    ensures p.1 != q.1
  {
    var a, b := PairPositions(vertices, actions, i, p);
    PairsWithMembers(vertices, actions, i, |vertices|, q);
    var c :| i < c < |vertices| && IsPair(vertices, actions, i, c, q);
    PairsShareNoSecond(vertices, actions, a, b, i, c, p, q);
  }

  lemma SecondsOfBoth(front: seq<Pair>, back: seq<Pair>)
    requires SecondsDistinct(front) && SecondsDistinct(back)
    requires forall p, q :: p in front && q in back ==> p.1 != q.1
    ensures SecondsDistinct(front + back)
  {
  }

  lemma {:induction false} PairsBeforeDistinct(vertices: seq<Vertex>, actions: map<Vertex, Action>, i: nat)
    requires Distinct(vertices) && AtMostTwo(actions) && i <= |vertices|
    ensures SecondsDistinct(PairsBefore(vertices, actions, i))
  {
    if i > 0 {
      PairsBeforeDistinct(vertices, actions, i - 1);
      PairsWithDistinct(vertices, actions, i - 1, |vertices|);
      var front, back := PairsBefore(vertices, actions, i - 1), PairsWith(vertices, actions, i - 1, |vertices|);
      forall p, q | p in front && q in back ensures p.1 != q.1 {
        LaterPairsDiffer(vertices, actions, i - 1, p, q);
      }
      SecondsOfBoth(front, back);
    }
  }

  ghost function RepMap(pairs: seq<Pair>): map<Vertex, Vertex> {
    if pairs == [] then map[] else RepMap(pairs[..|pairs| - 1])[pairs[|pairs| - 1].1 := pairs[|pairs| - 1].0]
  }

  lemma {:induction false} RepMapMembers(pairs: seq<Pair>)
    requires SecondsDistinct(pairs)
    ensures forall x :: x in RepMap(pairs) <==> exists k :: 0 <= k < |pairs| && pairs[k].1 == x
    ensures forall k :: 0 <= k < |pairs| ==> pairs[k].1 in RepMap(pairs) && RepMap(pairs)[pairs[k].1] == pairs[k].0
  {
    if pairs != [] {
      RepMapMembers(pairs[..|pairs| - 1]);
    }
  }

  /** The duplicates of the whole graph and what they are merged into. */
  ghost function Merged(vertices: seq<Vertex>, actions: map<Vertex, Action>): map<Vertex, Vertex> {
    RepMap(PairsBefore(vertices, actions, |vertices|))
  }

  /** A vertex is merged away exactly if an earlier vertex is its duplicate, and then into that one. */
  lemma MergedMembers(vertices: seq<Vertex>, actions: map<Vertex, Action>, a: nat, b: nat)
    requires Distinct(vertices) && AtMostTwo(actions)
    requires a < b < |vertices| && Same(actions, vertices[a], vertices[b])
    ensures vertices[b] in Merged(vertices, actions) && Merged(vertices, actions)[vertices[b]] == vertices[a]
    ensures vertices[a] !in Merged(vertices, actions)
  {
    var pairs := PairsBefore(vertices, actions, |vertices|);
    var p := (vertices[a], vertices[b]);
    PairsBeforeDistinct(vertices, actions, |vertices|);
    RepMapMembers(pairs);
    assert IsPair(vertices, actions, a, b, p);
    assert IsPairUpTo(vertices, actions, a, |vertices|, p);
    PairListed(vertices, actions, |vertices|, a, p);
    var k :| 0 <= k < |pairs| && pairs[k] == p;
    forall m | 0 <= m < |pairs| ensures pairs[m].1 != vertices[a] {
      var c, d := PairPositions(vertices, actions, |vertices|, pairs[m]);
      SecondIsNoFirst(vertices, actions, a, b, c, d, p, pairs[m]);
    }
  }

  /** Conversely whatever is merged away has an earlier duplicate. */
  lemma MergedHasEarlier(vertices: seq<Vertex>, actions: map<Vertex, Action>, x: Vertex) returns (a: nat, b: nat)
    requires Distinct(vertices) && AtMostTwo(actions) && x in Merged(vertices, actions)
    ensures a < b < |vertices| && vertices[b] == x && Same(actions, vertices[a], x)
    ensures vertices[a] !in Merged(vertices, actions) && Merged(vertices, actions)[x] == vertices[a]
  {
    var pairs := PairsBefore(vertices, actions, |vertices|);
    PairsBeforeDistinct(vertices, actions, |vertices|);
    RepMapMembers(pairs);
    var k :| 0 <= k < |pairs| && pairs[k].1 == x;
    a, b := PairPositions(vertices, actions, |vertices|, pairs[k]);
    MergedMembers(vertices, actions, a, b);
  }

  /** The list of duplicates names vertices only, and no vertex both as kept and as removed. */
  lemma DuplicatesAreProper(vertices: seq<Vertex>, actions: map<Vertex, Action>)
    requires Distinct(vertices) && AtMostTwo(actions)
    ensures var pairs := PairsBefore(vertices, actions, |vertices|);
      && SecondsDistinct(pairs)
      && (forall x :: 0 <= x < |pairs| ==> pairs[x].0 in vertices && pairs[x].1 in vertices && pairs[x].0 != pairs[x].1)
      && (forall x, y :: 0 <= x < |pairs| && 0 <= y < |pairs| ==> pairs[x].0 != pairs[y].1)
  {
    var pairs := PairsBefore(vertices, actions, |vertices|);
    PairsBeforeDistinct(vertices, actions, |vertices|);
    forall x | 0 <= x < |pairs|
      ensures pairs[x].0 in vertices && pairs[x].1 in vertices && pairs[x].0 != pairs[x].1
    {
      var a, b := PairPositions(vertices, actions, |vertices|, pairs[x]);
    }
    forall x, y | 0 <= x < |pairs| && 0 <= y < |pairs| ensures pairs[x].0 != pairs[y].1 {
      var a, b := PairPositions(vertices, actions, |vertices|, pairs[x]);
      var c, d := PairPositions(vertices, actions, |vertices|, pairs[y]);
      SecondIsNoFirst(vertices, actions, a, b, c, d, pairs[x], pairs[y]);
    }
  }

  /** The vertices the pairs remove. */
  function Seconds(pairs: seq<Pair>): set<Vertex> {
    if pairs == [] then {} else Seconds(pairs[..|pairs| - 1]) + {pairs[|pairs| - 1].1}
  }

  lemma {:induction false} SecondsMembers(pairs: seq<Pair>, k: nat, x: Vertex)
    requires k <= |pairs|
    ensures x in Seconds(pairs[..k]) <==> exists m :: 0 <= m < k && pairs[m].1 == x
  {
    if k > 0 {
      SecondsMembers(pairs, k - 1, x);
      assert pairs[..k][..k - 1] == pairs[..k - 1];
    }
  }

  /** Pair number k names a vertex that an earlier pair has removed. */
  ghost predicate NamesGone(pairs: seq<Pair>, k: nat)
    requires k < |pairs|
  {
    pairs[k].0 in Seconds(pairs[..k]) || pairs[k].1 in Seconds(pairs[..k])
  }

  ghost predicate NeverRevisits(pairs: seq<Pair>) {
    forall k :: 0 <= k < |pairs| ==> !NamesGone(pairs, k)
  }

  /** The same for the first k pairs, one after the other. */
  ghost predicate NotYetRevisited(pairs: seq<Pair>, k: nat)
    requires k <= |pairs|
  {
    k == 0 || (NotYetRevisited(pairs, k - 1) && !NamesGone(pairs, k - 1))
  }

  lemma {:induction false} NotYetMeans(pairs: seq<Pair>, k: nat)
    requires k <= |pairs|
    ensures NotYetRevisited(pairs, k) <==> forall m :: 0 <= m < k ==> !NamesGone(pairs, m)
  {
    if k > 0 {
      NotYetMeans(pairs, k - 1);
    }
  }

  lemma {:induction false} PairsPrefix(vertices: seq<Vertex>, actions: map<Vertex, Action>, i: nat, j: nat)
    requires i <= j <= |vertices|
    ensures PairsBefore(vertices, actions, i) <= PairsBefore(vertices, actions, j)
    decreases j
  {
    if i < j {
      PairsPrefix(vertices, actions, i, j - 1);
    }
  }

  /** The pair of the second and third copy comes after the second copy has been removed. */
  lemma ThirdIsRevisited(vertices: seq<Vertex>, actions: map<Vertex, Action>, a: nat, b: nat, c: nat)
    requires a < b < c < |vertices|
    requires Same(actions, vertices[a], vertices[b]) && Same(actions, vertices[b], vertices[c])
    ensures !NeverRevisits(PairsBefore(vertices, actions, |vertices|))
  {
    var early, late := PairsBefore(vertices, actions, b), PairsWith(vertices, actions, b, |vertices|);
    var p, q := (vertices[a], vertices[b]), (vertices[b], vertices[c]);
    assert IsPair(vertices, actions, a, b, p) && IsPair(vertices, actions, b, c, q);
    assert IsPairUpTo(vertices, actions, a, |vertices|, p) && IsPairUpTo(vertices, actions, b, |vertices|, q);
    PairListed(vertices, actions, b, a, p);
    PairsWithMembers(vertices, actions, b, |vertices|, q);
    PairsPrefix(vertices, actions, b + 1, |vertices|);
    assert PairsBefore(vertices, actions, b + 1) == early + late;
    LaterNamesGone(PairsBefore(vertices, actions, |vertices|), early, late, p, q);
  }

  lemma LaterNamesGone(pairs: seq<Pair>, early: seq<Pair>, late: seq<Pair>, p: Pair, q: Pair)
    requires early + late <= pairs && p in early && q in late && p.1 == q.0
    ensures !NeverRevisits(pairs)
  {
    var m :| 0 <= m < |early| && early[m] == p;
    var t :| 0 <= t < |late| && late[t] == q;
    assert (early + late)[m] == p && (early + late)[|early| + t] == q;
    SecondsMembers(pairs, |early| + t, p.1);
    assert pairs[m].1 == p.1;
    assert NamesGone(pairs, |early| + t);
  }

  lemma ThreeAreRevisited(vertices: seq<Vertex>, actions: map<Vertex, Action>, i: nat, j: nat, k: nat)
    requires i < |vertices| && j < |vertices| && k < |vertices| && i != j && j != k && i != k
    requires Same(actions, vertices[i], vertices[j]) && Same(actions, vertices[j], vertices[k])
    ensures !NeverRevisits(PairsBefore(vertices, actions, |vertices|))
  {
    var a, c := if i < j then (if i < k then i else k) else (if j < k then j else k),
                if i > j then (if i > k then i else k) else (if j > k then j else k);
    var b := i + j + k - a - c;
    ThirdIsRevisited(vertices, actions, a, b, c);
  }

  lemma ProperNeverRevisits(vertices: seq<Vertex>, actions: map<Vertex, Action>)
    requires Distinct(vertices) && AtMostTwo(actions)
    ensures NeverRevisits(PairsBefore(vertices, actions, |vertices|))
  {
    var pairs := PairsBefore(vertices, actions, |vertices|);
    DuplicatesAreProper(vertices, actions);
    forall k | 0 <= k < |pairs| ensures !NamesGone(pairs, k) {
      SecondsMembers(pairs, k, pairs[k].0);
      SecondsMembers(pairs, k, pairs[k].1);
    }
  }

  /** The merging loop never meets a removed vertex exactly if no device has three mounts or three unmounts. */
  lemma RevisitsExactly(vertices: seq<Vertex>, actions: map<Vertex, Action>)
    requires Distinct(vertices) && forall v :: v in vertices <==> v in actions
    ensures NeverRevisits(PairsBefore(vertices, actions, |vertices|)) <==> AtMostTwo(actions)
  {
    if AtMostTwo(actions) {
      ProperNeverRevisits(vertices, actions);
    }
    forall u, v, w | u != v && v != w && u != w && Same(actions, u, v) && Same(actions, v, w)
      ensures !NeverRevisits(PairsBefore(vertices, actions, |vertices|))
    {
      ThreeAreRevisited(vertices, actions, IndexOf(vertices, u), IndexOf(vertices, v), IndexOf(vertices, w));
    }
  }

  /** Three mounts of one mount point: the pair of the last two names the second one after its removal. */
  lemma RevisitExample(a: Vertex, b: Vertex, c: Vertex, actions: map<Vertex, Action>)
    requires a != b && b != c && a != c && Same(actions, a, b) && Same(actions, b, c)
    ensures PairsBefore([a, b, c], actions, 3) == [(a, b), (a, c), (b, c)]
    ensures !NeverRevisits([(a, b), (a, c), (b, c)]) && !AtMostTwo(actions)
  {
    var list := [a, b, c];
    assert PairsWith(list, actions, 0, 3) == PairsWith(list, actions, 0, 2) + [(a, c)];
    assert PairsWith(list, actions, 0, 2) == [(a, b)];
    assert PairsWith(list, actions, 1, 3) == [(b, c)] && PairsWith(list, actions, 2, 3) == [];
    assert PairsBefore(list, actions, 1) == [(a, b), (a, c)];
    assert PairsBefore(list, actions, 2) == [(a, b), (a, c), (b, c)];
    ThirdIsRevisited(list, actions, 0, 1, 2);
  }

  /** When pair k is handled, both its vertices are still there and untouched by the earlier merges. */
  lemma StepIsProper(vertices: seq<Vertex>, actions: map<Vertex, Action>, pairs: seq<Pair>, k: nat)
    requires Distinct(vertices) && AtMostTwo(actions)
    requires pairs == PairsBefore(vertices, actions, |vertices|) && k < |pairs|
    ensures var rep := RepMap(pairs[..k]); var (keep, dup) := pairs[k];
      && keep in vertices && dup in vertices && keep != dup
      && keep !in rep && dup !in rep && dup !in rep.Values
  {
    DuplicatesAreProper(vertices, actions);
    RepMapMembers(pairs[..k]);
  }

  /** The edges after merging all pairs one after the other. */
  function MergeAll(edges: seq<Edge>, pairs: seq<Pair>): seq<Edge> {
    if pairs == [] then edges
    else MergeList(MergeAll(edges, pairs[..|pairs| - 1]), pairs[|pairs| - 1].0, pairs[|pairs| - 1].1)
  }

  lemma {:induction false} MergeAllIsQuotient(vertices: seq<Vertex>, actions: map<Vertex, Action>, edges: seq<Edge>,
                                              k: nat)
    requires Distinct(vertices) && AtMostTwo(actions)
    requires k <= |PairsBefore(vertices, actions, |vertices|)|
    ensures var pairs := PairsBefore(vertices, actions, |vertices|);
      Support(MergeAll(edges, pairs[..k])) == Quotient(Support(edges), RepMap(pairs[..k]))
    decreases k
  {
    var pairs := PairsBefore(vertices, actions, |vertices|);
    if k == 0 {
      QuotientByNothing(Support(edges));
    } else {
      MergeAllIsQuotient(vertices, actions, edges, k - 1);
      assert pairs[..k][..k - 1] == pairs[..k - 1];
      StepIsProper(vertices, actions, pairs, k - 1);
      var (keep, dup) := pairs[k - 1];
      MergeListIsQuotient(MergeAll(edges, pairs[..k - 1]), keep, dup);
      QuotientCompose(Support(edges), RepMap(pairs[..k - 1]), keep, dup);
    }
  }

  lemma NothingMerged(vertices: seq<Vertex>, actions: map<Vertex, Action>, edges: seq<Edge>)
    ensures Survivors(vertices, Seconds([])) == vertices && MergeAll(edges, []) == edges
    ensures actions - Seconds([]) == actions
  {
    SurvivorsOfOthers(vertices, {});
  }

  /** All pairs merged: the graph with every duplicate identified with its first occurrence. */
  lemma MergedIsQuotient(vertices: seq<Vertex>, actions: map<Vertex, Action>, edges: seq<Edge>)
    requires Distinct(vertices) && AtMostTwo(actions)
    ensures var pairs, rep := PairsBefore(vertices, actions, |vertices|), Merged(vertices, actions);
      Support(MergeAll(edges, pairs)) == Quotient(Support(edges), rep) && Seconds(pairs) == rep.Keys
  {
    var pairs := PairsBefore(vertices, actions, |vertices|);
    MergeAllIsQuotient(vertices, actions, edges, |pairs|);
    assert pairs[..|pairs|] == pairs;
    SecondsAreMerged(pairs);
  }

  lemma QuotientByNothing(es: set<Edge>)
    ensures Quotient(es, map[]) == es
  {
    forall e ensures e in Quotient(es, map[]) <==> e in es {
      if e in es {
        assert e == Edge(RepOf(map[], e.source), RepOf(map[], e.target));
      }
    }
  }

  lemma {:induction false} SecondsAreMerged(pairs: seq<Pair>)
    ensures Seconds(pairs) == RepMap(pairs).Keys
  {
    if pairs != [] {
      SecondsAreMerged(pairs[..|pairs| - 1]);
    }
  }

  /** One round of the merging loop: whether both vertices are present, and how the round extends the previous ones. */
  lemma MergeRound(vertices: seq<Vertex>, actions: map<Vertex, Action>, edges: seq<Edge>, pairs: seq<Pair>, k: nat)
    requires Distinct(vertices) && pairs == PairsBefore(vertices, actions, |vertices|) && k < |pairs|
    ensures var left := Survivors(vertices, Seconds(pairs[..k]));
      NamesGone(pairs, k) <==> pairs[k].0 !in left || pairs[k].1 !in left
    ensures pairs[k].0 != pairs[k].1
    ensures Survivors(Survivors(vertices, Seconds(pairs[..k])), {pairs[k].1}) ==
      Survivors(vertices, Seconds(pairs[..k + 1]))
    ensures Seconds(pairs[..k + 1]) == Seconds(pairs[..k]) + {pairs[k].1}
    ensures MergeAll(edges, pairs[..k + 1]) == MergeList(MergeAll(edges, pairs[..k]), pairs[k].0, pairs[k].1)
  {
    assert pairs[..k + 1][..k] == pairs[..k];
    var a, b := PairPositions(vertices, actions, |vertices|, pairs[k]);
    SurvivorsMembers(vertices, Seconds(pairs[..k]));
    SurvivorsStep(vertices, Seconds(pairs[..k]), pairs[k].1);
  }

  /** One round of the contraction loop. */
  lemma ContractRound(vertices: seq<Vertex>, edges: seq<Edge>, list: seq<Vertex>, k: nat)
    requires Distinct(list) && k < |list| && list[k] in vertices
    ensures list[k] in Survivors(vertices, Elems(list[..k]))
    ensures Survivors(Survivors(vertices, Elems(list[..k])), {list[k]}) == Survivors(vertices, Elems(list[..k + 1]))
    ensures Elems(list[..k + 1]) == Elems(list[..k]) + {list[k]}
    ensures ContractAll(edges, list[..k + 1]) == ContractList(ContractAll(edges, list[..k]), list[k])
  {
    assert list[..k + 1][..k] == list[..k];
    assert list[k] !in list[..k];
    assert Elems(list[..k + 1]) == Elems(list[..k]) + {list[k]};
    SurvivorsMembers(vertices, Elems(list[..k]));
    SurvivorsStep(vertices, Elems(list[..k]), list[k]);
  }

  /** After the merge no two actions are duplicates, and every action is represented by one of its own kind. */
  lemma OneOfEachSurvives(vertices: seq<Vertex>, actions: map<Vertex, Action>)
    requires Distinct(vertices) && AtMostTwo(actions)
    ensures var left := Survivors(vertices, Merged(vertices, actions).Keys);
      && (forall u, v :: u in left && v in left && u != v ==> !Same(actions, u, v))
      && (forall x :: x in vertices ==>
            var r := RepOf(Merged(vertices, actions), x);
            r in left && (r == x || Same(actions, r, x)))
  {
    var rep := Merged(vertices, actions);
    SurvivorsMembers(vertices, rep.Keys);
    forall u, v | u in vertices && v in vertices && u != v && Same(actions, u, v) ensures u in rep || v in rep {
      var i :| 0 <= i < |vertices| && vertices[i] == u;
      var j :| 0 <= j < |vertices| && vertices[j] == v;
      if i < j {
        MergedMembers(vertices, actions, i, j);
      } else {
        MergedMembers(vertices, actions, j, i);
      }
    }
    forall x | x in vertices
      ensures var r := RepOf(rep, x); r in Survivors(vertices, rep.Keys) && (r == x || Same(actions, r, x))
    {
      if x in rep {
        var a, b := MergedHasEarlier(vertices, actions, x);
      }
    }
  }
}
