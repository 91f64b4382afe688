/** Two lists being permutations of each other under a given equality of elements. */
module Matchings {

  import opened Sequences

  ghost predicate Coherent<T>(same: (T, T) -> bool, x: T, y: T, z: T) {
    && same(x, x)
    && (same(x, y) ==> same(y, x))
    && (same(x, y) && same(y, z) ==> same(x, z))
  }

  ghost predicate IsEquivalence<T(!new)>(same: (T, T) -> bool) {
    forall x, y, z :: Coherent(same, x, y, z)
  }

  /** p sends every position of a to a position of b with an equal element, no two to the same one. */
  ghost predicate IsMatching<T>(p: seq<nat>, a: seq<T>, b: seq<T>, same: (T, T) -> bool) {
    && |p| == |a| == |b|
    && Distinct(p)
    && forall i :: 0 <= i < |p| ==> p[i] < |b| && same(a[i], b[p[i]])
  }

  ghost predicate Permuted<T>(a: seq<T>, b: seq<T>, same: (T, T) -> bool) {
    exists p :: IsMatching(p, a, b, same)
  }

  /** A matching reaches every position. */
  lemma Onto(p: seq<nat>, j: nat)
    requires Distinct(p) && (forall i :: 0 <= i < |p| ==> p[i] < |p|) && j < |p|
    ensures j in p
  {
    var all := seq(|p|, i => i);
    forall x: nat | x in p ensures x in all {
      assert all[x] == x;
    }
    DistinctFits(all, p);
    assert all[j] in Elems(all);
  }

  lemma PermutedReflexive<T(!new)>(a: seq<T>, same: (T, T) -> bool)
    requires IsEquivalence(same)
    ensures Permuted(a, a, same)
  {
    var id: seq<nat> := seq(|a|, i => i);
    forall i | 0 <= i < |a| ensures same(a[i], a[id[i]]) {
      assert Coherent(same, a[i], a[i], a[i]);
    }
    assert IsMatching(id, a, a, same);
  }

  lemma PermutedSymmetric<T(!new)>(a: seq<T>, b: seq<T>, same: (T, T) -> bool)
    requires IsEquivalence(same) && Permuted(a, b, same)
    ensures Permuted(b, a, same)
  {
    var p :| IsMatching(p, a, b, same);
    forall j: nat | j < |p| ensures j in p {
      Onto(p, j);
    }
    var inverse: seq<nat> := seq(|p|, (j: nat) requires j < |p| => IndexOf(p, j));
    forall j | 0 <= j < |p| ensures inverse[j] < |a| && p[inverse[j]] == j && same(b[j], a[inverse[j]]) {
      assert Coherent(same, a[inverse[j]], b[j], b[j]);
    }
    assert IsMatching(inverse, b, a, same);
  }

  lemma PermutedTransitive<T(!new)>(a: seq<T>, b: seq<T>, c: seq<T>, same: (T, T) -> bool)
    requires IsEquivalence(same) && Permuted(a, b, same) && Permuted(b, c, same)
    ensures Permuted(a, c, same)
  {
    var p :| IsMatching(p, a, b, same);
    var q :| IsMatching(q, b, c, same);
    var r: seq<nat> := seq(|p|, i requires 0 <= i < |p| => q[p[i]]);
    forall i | 0 <= i < |r| ensures r[i] < |c| && same(a[i], c[r[i]]) {
      assert Coherent(same, a[i], b[p[i]], c[r[i]]);
    }
    assert IsMatching(r, a, c, same);
  }

  // ----- looking for a matching

  /** The matching found so far covers the first |p| elements. */
  ghost predicate IsPartial<T>(p: seq<nat>, a: seq<T>, b: seq<T>, same: (T, T) -> bool) {
    && |p| <= |a|
    && Distinct(p)
    && forall i :: 0 <= i < |p| ==> p[i] < |b| && same(a[i], b[p[i]])
  }

  /** The positions in a of the elements up to k that equal a[k]. */
  ghost function Alike<T>(a: seq<T>, k: nat, same: (T, T) -> bool): set<nat>
    requires k < |a|
  {
    set i: nat | i <= k && same(a[k], a[i])
  }

  ghost function Image(q: seq<nat>, s: set<nat>): set<nat>
    requires forall i :: i in s ==> i < |q|
  {
    set i | i in s :: q[i]
  }

  lemma {:induction false} ImageSize(q: seq<nat>, s: set<nat>)
    requires Distinct(q) && forall i :: i in s ==> i < |q|
    ensures |Image(q, s)| == |s|
    decreases s
  {
    if s != {} {
      var x :| x in s;
      ImageSize(q, s - {x});
      assert Image(q, s) == Image(q, s - {x}) + {q[x]};
    }
  }

  /** As long as a matching exists at all, b has an element left that equals the next one of a. */
  lemma OneIsLeft<T(!new)>(p: seq<nat>, q: seq<nat>, a: seq<T>, b: seq<T>, same: (T, T) -> bool) returns (j: nat)
    requires IsEquivalence(same) && IsPartial(p, a, b, same) && |p| < |a| && IsMatching(q, a, b, same)
    ensures j < |b| && same(a[|p|], b[j]) && j !in p
  {
    var alike := Alike(a, |p|, same);
    var others := alike - {|p|};
    assert |p| in alike by {
      assert Coherent(same, a[|p|], a[|p|], a[|p|]);
    }
    ImageSize(q, alike);
    ImageSize(p, others);
    NotSubset(Image(q, alike), Image(p, others));
    j :| j in Image(q, alike) && j !in Image(p, others);
    var i :| i in alike && q[i] == j;
    assert Coherent(same, a[|p|], a[i], b[j]);
    forall k | 0 <= k < |p| ensures p[k] != j {
      assert Coherent(same, a[k], b[p[k]], a[k]);
      assert Coherent(same, a[|p|], b[p[k]], a[k]);
      assert p[k] == j ==> k in others;
    }
  }

  lemma NotSubset(s: set<nat>, t: set<nat>)
    requires |s| > |t|
    ensures exists j :: j in s && j !in t
  {
    if s <= t {
      SubsetAtMost(s, t);
    }
  }

  lemma NoneLeft<T(!new)>(p: seq<nat>, a: seq<T>, b: seq<T>, same: (T, T) -> bool)
    requires IsEquivalence(same) && IsPartial(p, a, b, same) && |p| < |a|
    requires forall j: nat :: j < |b| && same(a[|p|], b[j]) ==> j in p
    ensures !Permuted(a, b, same)
  {
    if q :| IsMatching(q, a, b, same) {
      var _ := OneIsLeft(p, q, a, b, same);
    }
  }

  /** Matches the elements one after the other, each with any equal one not taken yet. */
  method IsPermutation<T(!new)>(a: seq<T>, b: seq<T>, same: (T, T) -> bool) returns (r: bool)
    requires IsEquivalence(same)
    ensures r <==> Permuted(a, b, same)
  {
    if |a| != |b| {
      return false;
    }
    var p: seq<nat> := [];
    while |p| < |a|
      invariant IsPartial(p, a, b, same)
    {
      var j := 0;
      while j < |b| && (j in p || !same(a[|p|], b[j]))
        invariant j <= |b|
        invariant forall k: nat :: k < j && same(a[|p|], b[k]) ==> k in p
      {
        j := j + 1;
      }
      if j == |b| {
        NoneLeft(p, a, b, same);
        return false;
      }
      p := p + [j];
    }
    assert IsMatching(p, a, b, same);
    r := true;
  }
}
