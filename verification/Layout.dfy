/** Which chains a request consists of, and in which order: where every chain comes from. */
module Layout {

  import opened Actions
  import opened DeviceChanges

  /**
   * Where a chain comes from.  Ranks 0, 1 and 2 are the devices that are only in rhs, in both, and only in lhs;
   * pos is the place of the device in rhs (rank 0) or lhs, and j the number of the chain among those of the
   * device.  Rank 3 are the chains of the holders.
   */
  datatype Origin = Origin(rank: nat, pos: nat, j: nat)

  function SidsOf(req: Request, rank: nat): seq<Sid> {
    if rank == 0 then req.rhs else req.lhs
  }

  predicate InRank(req: Request, rank: nat, s: Sid) {
    if rank == 0 then s in req.rhs && s !in req.lhs
    else if rank == 1 then s in req.lhs && s in req.rhs
    else s in req.lhs && s !in req.rhs
  }

  predicate IsOrigin(req: Request, o: Origin) {
    if o.rank <= 2 then
      && o.pos < |SidsOf(req, o.rank)| && InRank(req, o.rank, SidsOf(req, o.rank)[o.pos])
      && SidsOf(req, o.rank)[o.pos] in req.chains && o.j < |req.chains[SidsOf(req, o.rank)[o.pos]]|
    else
      o.rank == 3 && o.pos == 0 && o.j < |req.holderChains|
  }

  function ChainFrom(req: Request, o: Origin): Chain
    requires IsOrigin(req, o)
  {
    if o.rank <= 2 then req.chains[SidsOf(req, o.rank)[o.pos]][o.j] else req.holderChains[o.j]
  }

  predicate Earlier(a: Origin, b: Origin) {
    a.rank < b.rank || (a.rank == b.rank && (a.pos < b.pos || (a.pos == b.pos && a.j < b.j)))
  }

  /** chains are exactly the request's chains from before the bound, each once, in the order of their origins. */
  ghost predicate IsLayoutUpTo(req: Request, chains: seq<Chain>, from: seq<Origin>, bound: Origin) {
    && |from| == |chains|
    && (forall k :: 0 <= k < |from| ==>
          IsOrigin(req, from[k]) && Earlier(from[k], bound) && chains[k] == ChainFrom(req, from[k]))
    && (forall i, j :: 0 <= i < j < |from| ==> Earlier(from[i], from[j]))
    && (forall o :: IsOrigin(req, o) && Earlier(o, bound) ==> o in from)
  }

  /** chains are exactly the request's chains, each once: created, common and deleted devices, then holders. */
  ghost predicate IsLayout(req: Request, chains: seq<Chain>, from: seq<Origin>) {
    && |from| == |chains|
    && (forall k :: 0 <= k < |from| ==> IsOrigin(req, from[k]) && chains[k] == ChainFrom(req, from[k]))
    && (forall i, j :: 0 <= i < j < |from| ==> Earlier(from[i], from[j]))
    && (forall o :: IsOrigin(req, o) ==> o in from)
  }

  /** No origin lies between two bounds: nothing is missing up to the later one. */
  lemma NothingBetween(req: Request, chains: seq<Chain>, from: seq<Origin>, bound: Origin, bound': Origin)
    requires IsLayoutUpTo(req, chains, from, bound) && Earlier(bound, bound')
    requires forall o :: IsOrigin(req, o) && Earlier(o, bound') ==> Earlier(o, bound)
    ensures IsLayoutUpTo(req, chains, from, bound')
  {
  }

  /** The chains own are the ones of the device at place pos, or of the holders. */
  ghost predicate AreOf(req: Request, rank: nat, pos: nat, own: seq<Chain>) {
    && (forall j: nat :: IsOrigin(req, Origin(rank, pos, j)) <==> j < |own|)
    && (forall j: nat :: j < |own| ==> ChainFrom(req, Origin(rank, pos, j)) == own[j])
  }

  lemma OneMoreOwner(req: Request, chains: seq<Chain>, from: seq<Origin>, rank: nat, pos: nat, own: seq<Chain>)
    returns (from': seq<Origin>)
    requires IsLayoutUpTo(req, chains, from, Origin(rank, pos, 0)) && AreOf(req, rank, pos, own)
    ensures IsLayoutUpTo(req, chains + own, from', Origin(rank, pos + 1, 0))
  {
    var more: seq<Origin> := seq(|own|, j requires 0 <= j < |own| => Origin(rank, pos, j));
    from' := from + more;
    forall o | IsOrigin(req, o) && Earlier(o, Origin(rank, pos + 1, 0)) ensures o in from' {
      if !Earlier(o, Origin(rank, pos, 0)) {
        assert o == Origin(rank, pos, o.j) && more[o.j] == o;
      }
    }
    forall k | 0 <= k < |from'|
      ensures IsOrigin(req, from'[k]) && Earlier(from'[k], Origin(rank, pos + 1, 0))
      ensures (chains + own)[k] == ChainFrom(req, from'[k])
    {
      if k >= |from| {
        assert from'[k] == Origin(rank, pos, k - |from|);
      }
    }
  }

  /** The devices of one rank among the first p of their list, as the code selects them. */
  function Chosen(req: Request, rank: nat, p: nat): seq<Sid>
    requires p <= |SidsOf(req, rank)|
  {
    if rank == 0 then Missing(req.rhs[..p], req.lhs)
    else if rank == 1 then Common(req.lhs[..p], req.rhs)
    else Missing(req.lhs[..p], req.rhs)
  }

  lemma ChosenNext(req: Request, rank: nat, p: nat)
    requires rank <= 2 && p < |SidsOf(req, rank)|
    ensures var s := SidsOf(req, rank)[p];
      Chosen(req, rank, p + 1) == Chosen(req, rank, p) + (if InRank(req, rank, s) then [s] else [])
  {
    var list := SidsOf(req, rank);
    assert list[..p + 1][..p] == list[..p];
  }

  lemma {:induction false} ChainsJoined(req: Request, a: seq<Sid>, b: seq<Sid>)
    ensures ChainsOfAll(req, a + b) == ChainsOfAll(req, a) + ChainsOfAll(req, b)
  {
    if b == [] {
      assert a + b == a && ChainsOfAll(req, a) + [] == ChainsOfAll(req, a);
    } else {
      var n := |b| - 1;
      assert (a + b)[..|a + b| - 1] == a + b[..n];
      ChainsJoined(req, a, b[..n]);
      assert ChainsOfAll(req, a) + (ChainsOfAll(req, b[..n]) + req.ChainsOf(b[n])) ==
        (ChainsOfAll(req, a) + ChainsOfAll(req, b[..n])) + req.ChainsOf(b[n]);
    }
  }

  lemma ChainsOfOne(req: Request, s: Sid)
    ensures ChainsOfAll(req, [s]) == req.ChainsOf(s) && ChainsOfAll(req, []) == []
  {
    assert [s][..0] == [] && [] + req.ChainsOf(s) == req.ChainsOf(s);
  }

  /** The chains of the device at place p, if it is of this rank. */
  function OwnChains(req: Request, rank: nat, p: nat): seq<Chain>
    requires p < |SidsOf(req, rank)|
  {
    var s := SidsOf(req, rank)[p];
    if InRank(req, rank, s) then req.ChainsOf(s) else []
  }

  /** The chains of the devices of one rank, up to place p. */
  function RankChains(req: Request, rank: nat, p: nat): seq<Chain>
    requires p <= |SidsOf(req, rank)|
  {
    ChainsOfAll(req, Chosen(req, rank, p))
  }

  lemma RankChainsNext(req: Request, rank: nat, p: nat, chains: seq<Chain>)
    requires rank <= 2 && p < |SidsOf(req, rank)|
    ensures chains + RankChains(req, rank, p + 1) == chains + RankChains(req, rank, p) + OwnChains(req, rank, p)
  {
    var s := SidsOf(req, rank)[p];
    ChosenNext(req, rank, p);
    ChainsOfOne(req, s);
    ChainsJoined(req, Chosen(req, rank, p), if InRank(req, rank, s) then [s] else []);
    assert chains + (RankChains(req, rank, p) + OwnChains(req, rank, p)) ==
      chains + RankChains(req, rank, p) + OwnChains(req, rank, p);
  }

  lemma OneMoreDevice(req: Request, rank: nat, p: nat, chains: seq<Chain>, from: seq<Origin>)
    returns (from': seq<Origin>)
    requires rank <= 2 && p < |SidsOf(req, rank)| && IsLayoutUpTo(req, chains, from, Origin(rank, p, 0))
    ensures IsLayoutUpTo(req, chains + OwnChains(req, rank, p), from', Origin(rank, p + 1, 0))
  {
    from' := OneMoreOwner(req, chains, from, rank, p, OwnChains(req, rank, p));
  }

  lemma {:induction false} RankIsLaid(req: Request, rank: nat, p: nat, chains: seq<Chain>, from: seq<Origin>)
    returns (from': seq<Origin>)
    requires rank <= 2 && p <= |SidsOf(req, rank)|
    requires IsLayoutUpTo(req, chains, from, Origin(rank, 0, 0))
    ensures IsLayoutUpTo(req, chains + RankChains(req, rank, p), from', Origin(rank, p, 0))
  {
    if p == 0 {
      from' := from;
      assert RankChains(req, rank, 0) == [] && chains + [] == chains;
    } else {
      var between := RankIsLaid(req, rank, p - 1, chains, from);
      from' := OneMoreDevice(req, rank, p - 1, chains + RankChains(req, rank, p - 1), between);
      RankChainsNext(req, rank, p - 1, chains);
    }
  }

  /** All devices of one rank. */
  lemma WholeRankIsLaid(req: Request, rank: nat, chains: seq<Chain>, from: seq<Origin>) returns (from': seq<Origin>)
    requires rank <= 2 && IsLayoutUpTo(req, chains, from, Origin(rank, 0, 0))
    ensures IsLayoutUpTo(req, chains + RankChains(req, rank, |SidsOf(req, rank)|), from', Origin(rank + 1, 0, 0))
  {
    var n := |SidsOf(req, rank)|;
    from' := RankIsLaid(req, rank, n, chains, from);
    NothingBetween(req, chains + RankChains(req, rank, n), from', Origin(rank, n, 0), Origin(rank + 1, 0, 0));
  }

  lemma AllAreJoined(req: Request)
    ensures var n := |req.lhs|;
      AllChains(req) ==
      [] + RankChains(req, 0, |req.rhs|) + RankChains(req, 1, n) + RankChains(req, 2, n) + req.holderChains
  {
    var a, b, c := Chosen(req, 0, |req.rhs|), Chosen(req, 1, |req.lhs|), Chosen(req, 2, |req.lhs|);
    assert req.rhs[..|req.rhs|] == req.rhs && req.lhs[..|req.lhs|] == req.lhs;
    ChainsJoined(req, a, b);
    ChainsJoined(req, a + b, c);
    assert [] + ChainsOfAll(req, a) == ChainsOfAll(req, a);
  }

  lemma HoldersAreLaid(req: Request, chains: seq<Chain>, from: seq<Origin>) returns (from': seq<Origin>)
    requires IsLayoutUpTo(req, chains, from, Origin(3, 0, 0))
    ensures IsLayout(req, chains + req.holderChains, from')
  {
    from' := OneMoreOwner(req, chains, from, 3, 0, req.holderChains);
    forall o | IsOrigin(req, o) ensures o in from' {
      assert Earlier(o, Origin(3, 1, 0));
    }
  }

  /** What the planner lays out are exactly the request's chains. */
  lemma AllChainsAreLaid(req: Request) returns (from: seq<Origin>)
    ensures IsLayout(req, AllChains(req), from)
  {
    from := [];
    var chains: seq<Chain> := [];
    assert IsLayoutUpTo(req, chains, from, Origin(0, 0, 0));
    from := WholeRankIsLaid(req, 0, chains, from);
    chains := chains + RankChains(req, 0, |req.rhs|);
    from := WholeRankIsLaid(req, 1, chains, from);
    chains := chains + RankChains(req, 1, |req.lhs|);
    from := WholeRankIsLaid(req, 2, chains, from);
    chains := chains + RankChains(req, 2, |req.lhs|);
    from := HoldersAreLaid(req, chains, from);
    AllAreJoined(req);
  }

  // ----- there is only one layout

  lemma EmptyTogether(a: seq<Origin>, b: seq<Origin>)
    requires forall o :: o in a ==> o in b
    ensures b == [] ==> a == []
  {
    if a != [] {
      assert a[0] in b;
    }
  }

  lemma {:induction false} SortedAreEqual(a: seq<Origin>, b: seq<Origin>)
    requires forall i, j :: 0 <= i < j < |a| ==> Earlier(a[i], a[j])
    requires forall i, j :: 0 <= i < j < |b| ==> Earlier(b[i], b[j])
    requires forall o :: o in a <==> o in b
    ensures a == b
  {
    EmptyTogether(a, b);
    EmptyTogether(b, a);
    if a != [] && b != [] {
      var m, n := |a| - 1, |b| - 1;
      assert a[m] in b && b[n] in a;
      assert a[m] == b[n];
      forall o ensures o in a[..m] <==> o in b[..n] {
        assert o in a[..m] <==> o in a && o != a[m];
        assert o in b[..n] <==> o in b && o != b[n];
      }
      SortedAreEqual(a[..m], b[..n]);
    }
  }

  /** The request determines its layout. */
  lemma LayoutIsUnique(req: Request, chains: seq<Chain>, from: seq<Origin>, chains': seq<Chain>, from': seq<Origin>)
    requires IsLayout(req, chains, from) && IsLayout(req, chains', from')
    ensures chains == chains'
  {
    SortedAreEqual(from, from');
  }

  // ----- the actions a request consists of

  /** The action belongs to a chain of the request. */
  ghost predicate Provided(req: Request, action: Action) {
    exists o, i: nat :: IsOrigin(req, o) && i < ChainFrom(req, o).Size() && action == ChainFrom(req, o).At(i)
  }

  /** The graph of the chains has exactly the actions the request consists of. */
  lemma ProvidedAreLaid(req: Request, action: Action)
    ensures Provided(req, action) <==> action in ActionsOf(AllChains(req)).Values
  {
    var chains := AllChains(req);
    var from := AllChainsAreLaid(req);
    if Provided(req, action) {
      var o, i: nat :| IsOrigin(req, o) && i < ChainFrom(req, o).Size() && action == ChainFrom(req, o).At(i);
      var k :| 0 <= k < |from| && from[k] == o;
      ActionAt(chains, k, i);
    }
    if v :| v in ActionsOf(chains) && ActionsOf(chains)[v] == action {
      var k, i := FindPlace(chains, v);
      ActionAt(chains, k, i);
      assert action == ChainFrom(req, from[k]).At(i);
    }
  }
}
