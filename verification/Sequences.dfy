/** Lists without repetitions, and counting their elements. */
module Sequences {

  ghost predicate Distinct<T>(s: seq<T>) {
    forall i, j :: 0 <= i < j < |s| ==> s[i] != s[j]
  }

  function Elems<T>(s: seq<T>): set<T> {
    set x | x in s
  }

  function IndexOf<T(==)>(s: seq<T>, x: T): (i: nat)
    requires x in s
    ensures i < |s| && s[i] == x
  {
    if s[0] == x then 0 else 1 + IndexOf(s[1..], x)
  }

  lemma DistinctByMultiset<T>(s: seq<T>, t: seq<T>)
    requires Distinct(s) && multiset(t) == multiset(s)
    ensures Distinct(t)
  {
    forall i, j | 0 <= i < j < |t| && t[i] == t[j] ensures multiset(t)[t[j]] >= 2 {
      assert t == t[..j] + [t[j]] + t[j + 1..];
      assert t[i] in t[..j];
    }
    forall x ensures multiset(s)[x] <= 1 {
      DistinctCounts(s, x);
    }
  }

  lemma {:induction false} DistinctCounts<T>(s: seq<T>, x: T)
    requires Distinct(s)
    ensures multiset(s)[x] <= 1
  {
    if s != [] {
      DistinctCounts(s[1..], x);
      assert s == [s[0]] + s[1..];
      if x == s[0] {
        assert x !in s[1..];
      }
    }
  }

  lemma {:induction false} DistinctSize<T>(s: seq<T>)
    requires Distinct(s)
    ensures |Elems(s)| == |s|
  {
    if s != [] {
      DistinctSize(s[1..]);
      assert Elems(s) == {s[0]} + Elems(s[1..]);
    }
  }

  lemma {:induction false} ElemsSize<T>(s: seq<T>)
    ensures |Elems(s)| <= |s|
  {
    if s != [] {
      ElemsSize(s[1..]);
      assert Elems(s) == {s[0]} + Elems(s[1..]);
    }
  }

  lemma DistinctFits<T>(all: seq<T>, some: seq<T>)
    requires Distinct(some) && forall x :: x in some ==> x in all
    ensures |some| <= |all|
    ensures |some| == |all| ==> Elems(some) == Elems(all)
    ensures Distinct(all) && Elems(some) == Elems(all) ==> |some| == |all|
  {
    DistinctSize(some);
    ElemsSize(all);
    assert Elems(some) <= Elems(all);
    SubsetAtMost(Elems(some), Elems(all));
    if Elems(some) != Elems(all) {
      SubsetSmaller(Elems(some), Elems(all));
    }
    if Distinct(all) {
      DistinctSize(all);
    }
  }

  lemma {:induction false} SubsetSmaller<T>(a: set<T>, b: set<T>)
    requires a < b
    ensures |a| < |b|
    decreases b
  {
    var x :| x in b && x !in a;
    SubsetAtMost(a, b - {x});
  }

  lemma {:induction false} SubsetAtMost<T>(a: set<T>, b: set<T>)
    requires a <= b
    ensures |a| <= |b|
    decreases a
  {
    if a != {} {
      var x :| x in a;
      SubsetAtMost(a - {x}, b - {x});
    }
  }

  // ----- leaving members out

  /** at lists, in order, the positions of all members of before that are not in bad; after has what is there. */
  ghost predicate LeavesOut<T>(at: seq<nat>, before: seq<T>, bad: set<T>, after: seq<T>) {
    && |at| == |after|
    && (forall i :: 0 <= i < |at| ==> at[i] < |before| && after[i] == before[at[i]])
    && (forall i, j :: 0 <= i < j < |at| ==> at[i] < at[j])
    && (forall k: nat {:trigger k in at} :: k < |before| ==> (k in at <==> before[k] !in bad))
  }

  /** after is before without the members of bad: everything else is there, as often and in the same order. */
  ghost predicate IsRest<T>(before: seq<T>, bad: set<T>, after: seq<T>) {
    exists at: seq<nat> :: LeavesOut(at, before, bad, after)
  }

  lemma RestMembers<T>(before: seq<T>, bad: set<T>, after: seq<T>, x: T)
    requires IsRest(before, bad, after)
    ensures x in after <==> x in before && x !in bad
  {
    var at: seq<nat> :| LeavesOut(at, before, bad, after);
    if x in before && x !in bad {
      var k: nat :| k < |before| && before[k] == x;
      assert k in at;
      var i :| 0 <= i < |at| && at[i] == k;
      assert after[i] == x;
    }
    if x in after {
      var i :| 0 <= i < |after| && after[i] == x;
      assert at[i] in at;
    }
  }

  /** What is left when the members of gone are removed. */
  function Survivors<T(==)>(list: seq<T>, gone: set<T>): seq<T> {
    if list == [] then []
    else (if list[0] in gone then [] else [list[0]]) + Survivors(list[1..], gone)
  }

  lemma {:induction false} SurvivorsMembers<T>(list: seq<T>, gone: set<T>)
    ensures forall v :: v in Survivors(list, gone) <==> v in list && v !in gone
    ensures Distinct(list) ==> Distinct(Survivors(list, gone))
  {
    if list != [] {
      SurvivorsMembers(list[1..], gone);
      assert list == [list[0]] + list[1..];
    }
  }

  lemma {:induction false} SurvivorsJoined<T>(a: seq<T>, b: seq<T>, gone: set<T>)
    ensures Survivors(a + b, gone) == Survivors(a, gone) + Survivors(b, gone)
  {
    if a == [] {
      assert a + b == b && Survivors(a, gone) == [];
    } else {
      var head := if a[0] in gone then [] else [a[0]];
      SurvivorsJoined(a[1..], b, gone);
      assert (a + b)[1..] == a[1..] + b;
      assert Survivors(a + b, gone) == head + (Survivors(a[1..], gone) + Survivors(b, gone));
    }
  }

  lemma SurvivorsSnoc<T>(front: seq<T>, last: T, gone: set<T>)
    ensures Survivors(front + [last], gone) ==
            if last in gone then Survivors(front, gone) else Survivors(front, gone) + [last]
  {
    SurvivorsJoined(front, [last], gone);
    assert [last][1..] == [] && Survivors([], gone) == [];
    assert Survivors([last], gone) == if last in gone then [] else [last];
  }

  /** The positions of the others. */
  function Places<T(==)>(list: seq<T>, gone: set<T>): seq<nat> {
    if list == [] then []
    else
      var n := |list| - 1;
      Places(list[..n], gone) + (if list[n] in gone then [] else [n])
  }

  lemma {:induction false} PlacesExactly<T>(list: seq<T>, gone: set<T>, k: nat)
    ensures k in Places(list, gone) <==> k < |list| && list[k] !in gone
  {
    if list != [] {
      PlacesExactly(list[..|list| - 1], gone, k);
    }
  }

  lemma {:induction false} PlacesGrow<T>(list: seq<T>, gone: set<T>, i: nat, j: nat)
    requires i < j < |Places(list, gone)|
    ensures Places(list, gone)[i] < Places(list, gone)[j]
  {
    var n := |list| - 1;
    if j < |Places(list[..n], gone)| {
      PlacesGrow(list[..n], gone, i, j);
    } else {
      PlacesExactly(list[..n], gone, Places(list[..n], gone)[i]);
    }
  }

  lemma {:induction false} PlacesHold<T>(list: seq<T>, gone: set<T>, i: nat)
    ensures |Places(list, gone)| == |Survivors(list, gone)|
    ensures i < |Places(list, gone)| ==>
      Places(list, gone)[i] < |list| && Survivors(list, gone)[i] == list[Places(list, gone)[i]]
  {
    if list != [] {
      var front, last := list[..|list| - 1], list[|list| - 1];
      PlacesHold(front, gone, i);
      SurvivorsSnoc(front, last, gone);
      assert list == front + [last];
    }
  }

  /** The others stay, in their order. */
  lemma SurvivorsAreRest<T>(list: seq<T>, gone: set<T>)
    ensures IsRest(list, gone, Survivors(list, gone))
  {
    var at, left := Places(list, gone), Survivors(list, gone);
    PlacesHold(list, gone, 0);
    forall i | 0 <= i < |at| ensures at[i] < |list| && left[i] == list[at[i]] {
      PlacesHold(list, gone, i);
    }
    forall i, j | 0 <= i < j < |at| ensures at[i] < at[j] {
      PlacesGrow(list, gone, i, j);
    }
    forall k: nat | k < |list| ensures k in at <==> list[k] !in gone {
      PlacesExactly(list, gone, k);
    }
    assert LeavesOut(at, list, gone, left);
  }

  lemma {:induction false} SurvivorsStep<T>(list: seq<T>, gone: set<T>, v: T)
    ensures Survivors(Survivors(list, gone), {v}) == Survivors(list, gone + {v})
  {
    if list != [] {
      SurvivorsStep(list[1..], gone, v);
      var rest := Survivors(list[1..], gone);
      if list[0] in gone {
        assert Survivors(list, gone) == rest;
      } else {
        assert Survivors(list, gone) == [list[0]] + rest;
        assert ([list[0]] + rest)[1..] == rest;
      }
    }
  }

  lemma {:induction false} SurvivorsOfOthers<T>(list: seq<T>, gone: set<T>)
    requires forall x :: x in list ==> x !in gone
    ensures Survivors(list, gone) == list
  {
    if list != [] {
      SurvivorsOfOthers(list[1..], gone);
    }
  }

  /** Putting a member of gone in anywhere leaves the same rest. */
  lemma SurvivorsInsert<T>(list: seq<T>, gone: set<T>, i: nat, x: T)
    requires i <= |list| && x in gone
    ensures Survivors(list[..i] + [x] + list[i..], gone) == Survivors(list, gone)
  {
    SurvivorsAround(list[..i], list[i..], gone, x);
    assert list == list[..i] + list[i..];
  }

  lemma SurvivorsAround<T>(front: seq<T>, back: seq<T>, gone: set<T>, x: T)
    requires x in gone
    ensures Survivors(front + [x] + back, gone) == Survivors(front + back, gone)
  {
    SurvivorsSnoc(front, x, gone);
    SurvivorsJoined(front + [x], back, gone);
    SurvivorsJoined(front, back, gone);
  }
}
