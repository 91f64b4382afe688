/** The edges the chaining operations add, and the orderings those edges establish. */
module Chaining {

  import opened Reachability
  import opened Contraction

  /** Consecutive members of a list. */
  function PathEdges(list: seq<Vertex>): seq<Edge> {
    if |list| < 2 then []
    else PathEdges(list[..|list| - 1]) + [Edge(list[|list| - 2], list[|list| - 1])]
  }

  function NonEmpty(groups: seq<seq<Vertex>>): seq<seq<Vertex>> {
    if groups == [] then []
    else NonEmpty(groups[..|groups| - 1]) + (if groups[|groups| - 1] == [] then [] else [groups[|groups| - 1]])
  }

  function GroupEdges(groups: seq<seq<Vertex>>): seq<Edge> {
    if |groups| < 2 then []
    else GroupEdges(groups[..|groups| - 1]) + Cross(groups[|groups| - 2], groups[|groups| - 1])
  }

  /** Every vertex of the list reaches every later one. */
  lemma {:induction false} PathReaches(list: seq<Vertex>, i: nat, j: nat)
    requires i < j < |list|
    ensures Reaches(Support(PathEdges(list)), list[i], list[j])
  {
    var front := list[..|list| - 1];
    var es := Support(PathEdges(list));
    assert Support(PathEdges(front)) <= es;
    if j < |list| - 1 {
      PathReaches(front, i, j);
      ReachesMono(Support(PathEdges(front)), es, list[i], list[j]);
    } else {
      assert PathEdges(list)[|PathEdges(list)| - 1] == Edge(list[j - 1], list[j]);
      StepReaches(es, list[j - 1], list[j]);
      if i < j - 1 {
        PathReaches(front, i, j - 1);
        ReachesMono(Support(PathEdges(front)), es, list[i], list[j - 1]);
        ReachesTrans(es, list[i], list[j - 1], list[j]);
      }
    }
  }

  lemma GroupsRound(es: seq<Edge>, groups: seq<seq<Vertex>>, i: nat)
    requires 0 < i < |groups|
    ensures es + GroupEdges(groups[..i + 1]) == es + GroupEdges(groups[..i]) + Cross(groups[i - 1], groups[i])
  {
    assert groups[..i + 1][..i] == groups[..i];
    assert es + (GroupEdges(groups[..i]) + Cross(groups[i - 1], groups[i])) ==
      (es + GroupEdges(groups[..i])) + Cross(groups[i - 1], groups[i]);
  }

  /** One edge between each two consecutive vertices, and no other. */
  lemma {:induction false} PathEdgesAreConsecutive(list: seq<Vertex>)
    ensures |PathEdges(list)| == if |list| < 2 then 0 else |list| - 1
    ensures forall i :: 0 <= i < |PathEdges(list)| ==> PathEdges(list)[i] == Edge(list[i], list[i + 1])
  {
    if |list| >= 2 {
      PathEdgesAreConsecutive(list[..|list| - 1]);
    }
  }

  /** Where group i ends up once the empty groups are dropped. */
  lemma {:induction false} NonEmptyPosition(groups: seq<seq<Vertex>>, i: nat, j: nat) returns (a: nat, b: nat)
    requires i < j < |groups| && groups[i] != [] && groups[j] != []
    ensures a < b < |NonEmpty(groups)| && NonEmpty(groups)[a] == groups[i] && NonEmpty(groups)[b] == groups[j]
  {
    var front := groups[..|groups| - 1];
    if j < |groups| - 1 {
      a, b := NonEmptyPosition(front, i, j);
    } else {
      a := NonEmptyOne(front, i);
      b := |NonEmpty(front)|;
    }
  }

  lemma {:induction false} NonEmptyOne(groups: seq<seq<Vertex>>, i: nat) returns (a: nat)
    requires i < |groups| && groups[i] != []
    ensures a < |NonEmpty(groups)| && NonEmpty(groups)[a] == groups[i]
  {
    var front := groups[..|groups| - 1];
    if i < |front| {
      a := NonEmptyOne(front, i);
    } else {
      a := |NonEmpty(front)|;
    }
  }

  lemma {:induction false} NonEmptyGroups(groups: seq<seq<Vertex>>)
    ensures forall g :: g in NonEmpty(groups) <==> g in groups && g != []
  {
    if groups != [] {
      NonEmptyGroups(groups[..|groups| - 1]);
      assert groups == groups[..|groups| - 1] + [groups[|groups| - 1]];
    }
  }

  lemma {:induction false} DenseGroupsReach(groups: seq<seq<Vertex>>, i: nat, j: nat, u: Vertex, v: Vertex)
    requires forall g :: g in groups ==> g != []
    requires i < j < |groups| && u in groups[i] && v in groups[j]
    ensures Reaches(Support(GroupEdges(groups)), u, v)
  {
    var front := groups[..|groups| - 1];
    var es := Support(GroupEdges(groups));
    assert Support(GroupEdges(front)) <= es;
    assert forall g :: g in front ==> g in groups;
    if j < |groups| - 1 {
      DenseGroupsReach(front, i, j, u, v);
      ReachesMono(Support(GroupEdges(front)), es, u, v);
    } else {
      assert groups[j - 1] in groups;
      var w := if i == j - 1 then u else groups[j - 1][0];
      CrossMembers(groups[j - 1], groups[j], Edge(w, v));
      StepReaches(es, w, v);
      if i < j - 1 {
        DenseGroupsReach(front, i, j - 1, u, w);
        ReachesMono(Support(GroupEdges(front)), es, u, w);
        ReachesTrans(es, u, w, v);
      }
    }
  }

  /** Every action of an earlier group reaches every action of a later one, empty groups in between or not. */
  lemma GroupsReach(groups: seq<seq<Vertex>>, i: nat, j: nat, u: Vertex, v: Vertex)
    requires i < j < |groups| && u in groups[i] && v in groups[j]
    ensures Reaches(Support(GroupEdges(NonEmpty(groups))), u, v)
  {
    var a, b := NonEmptyPosition(groups, i, j);
    NonEmptyGroups(groups);
    DenseGroupsReach(NonEmpty(groups), a, b, u, v);
  }

  /** And nothing else is added: an added edge leads from one non-empty group to the next non-empty one. */
  lemma {:induction false} GroupEdgesAreConsecutive(groups: seq<seq<Vertex>>, e: Edge)
    ensures e in GroupEdges(groups) <==>
            exists i :: 0 <= i < |groups| - 1 && e.source in groups[i] && e.target in groups[i + 1]
  {
    if |groups| >= 2 {
      var front := groups[..|groups| - 1];
      var k := |groups| - 2;
      GroupEdgesAreConsecutive(front, e);
      CrossMembers(groups[k], groups[k + 1], e);
      if e in GroupEdges(front) {
        var i :| 0 <= i < |front| - 1 && e.source in front[i] && e.target in front[i + 1];
        assert e.source in groups[i] && e.target in groups[i + 1];
      }
      if i :| 0 <= i < |groups| - 1 && e.source in groups[i] && e.target in groups[i + 1] {
        if i < k {
          assert e.source in front[i] && e.target in front[i + 1];
        }
      }
    }
  }
}
