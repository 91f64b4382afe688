/** The mount order of /etc/fstab: no entry may come after one that is mounted below it. */
module Fstab {

  import opened Sequences

  /** An entry; id stands for the entry object, so that two entries with equal contents stay distinct. */
  datatype FstabEntry = FstabEntry(id: nat, mountPoint: string)

  /** y is mounted into x's mount tree, or at the same place: x's mount point is a prefix of y's. */
  predicate Under(y: FstabEntry, x: FstabEntry) {
    x.mountPoint <= y.mountPoint
  }

  predicate StrictlyUnder(y: FstabEntry, x: FstabEntry) {
    x.mountPoint < y.mountPoint
  }

  /** No entry comes after one that is mounted strictly below it. */
  ghost predicate WeaklyOrdered(s: seq<FstabEntry>) {
    forall i, j :: 0 <= i < j < |s| ==> !StrictlyUnder(s[i], s[j])
  }

  ghost predicate DistinctMountPoints(s: seq<FstabEntry>) {
    forall i, j :: 0 <= i < j < |s| ==> s[i].mountPoint != s[j].mountPoint
  }

  /** The entry at position i comes after one that is mounted at or below its mount point. */
  ghost predicate Problem(s: seq<FstabEntry>, i: nat)
    requires i < |s|
  {
    exists j :: 0 <= j < i && Under(s[j], s[i])
  }

  function Inserted(s: seq<FstabEntry>, i: nat, x: FstabEntry): seq<FstabEntry>
    requires i <= |s|
  {
    s[..i] + [x] + s[i..]
  }

  /** t is s with some entries taken out: the others keep their relative order. */
  ghost predicate IsSubsequence(t: seq<FstabEntry>, s: seq<FstabEntry>) {
    if t == [] then true
    else if s == [] then false
    else (t[0] == s[0] && IsSubsequence(t[1..], s[1..])) || IsSubsequence(t, s[1..])
  }

  /** Where add puts an entry that is not in the list: before the first entry under it, else at the end. */
  ghost predicate IsSortIndex(s: seq<FstabEntry>, x: FstabEntry, i: nat) {
    && i <= |s|
    && (forall j :: 0 <= j < i ==> !Under(s[j], x))
    && (i < |s| ==> Under(s[i], x))
  }

  /** Inserting at the sort index keeps a weakly ordered list weakly ordered. */
  lemma InsertKeepsOrder(s: seq<FstabEntry>, x: FstabEntry, i: nat)
    requires WeaklyOrdered(s) && IsSortIndex(s, x, i)
    ensures WeaklyOrdered(Inserted(s, i, x))
  {
    var r := Inserted(s, i, x);
    forall a, b | 0 <= a < b < |r| ensures !StrictlyUnder(r[a], r[b]) {
      if a == i {
        // x is a prefix of s[i]; whatever x is strictly under, s[i] would be strictly under as well
        assert r[b] == s[b - 1];
        if b - 1 > i {
          assert !StrictlyUnder(s[i], s[b - 1]);
        }
      }
    }
  }

  lemma {:induction false} SubsequenceRefl(s: seq<FstabEntry>)
    ensures IsSubsequence(s, s)
  {
    if s != [] {
      SubsequenceRefl(s[1..]);
    }
  }

  lemma {:induction false} InsertedIsLonger(s: seq<FstabEntry>, i: nat, x: FstabEntry)
    requires i <= |s|
    ensures IsSubsequence(s, Inserted(s, i, x))
  {
    var r := Inserted(s, i, x);
    if i == 0 {
      assert r[1..] == s;
      SubsequenceRefl(s);
    } else {
      InsertedIsLonger(s[1..], i - 1, x);
      assert r[1..] == Inserted(s[1..], i - 1, x);
    }
  }

  lemma {:induction false} SubsequenceTrans(a: seq<FstabEntry>, b: seq<FstabEntry>, c: seq<FstabEntry>)
    requires IsSubsequence(a, b) && IsSubsequence(b, c)
    ensures IsSubsequence(a, c)
    decreases |b| + |c|
  {
    if a != [] {
      if b[0] == c[0] && IsSubsequence(b[1..], c[1..]) {
        if a[0] == b[0] && IsSubsequence(a[1..], b[1..]) {
          SubsequenceTrans(a[1..], b[1..], c[1..]);
        } else {
          SubsequenceTrans(a, b[1..], c[1..]);
        }
      } else {
        SubsequenceTrans(a, b, c[1..]);
      }
    }
  }

  /** One call of add. */
  ghost predicate AddStep(s: seq<FstabEntry>, x: FstabEntry, t: seq<FstabEntry>) {
    exists i :: 0 <= i <= |s| && IsSortIndex(s, x, i) && t == Inserted(s, i, x)
  }

  /** Any number of adds keeps a weakly ordered list weakly ordered and the relative order of what was there. */
  lemma {:induction false} AddsKeepOrder(states: seq<seq<FstabEntry>>, added: seq<FstabEntry>)
    requires |states| == |added| + 1 && WeaklyOrdered(states[0])
    requires forall k :: 0 <= k < |added| ==> AddStep(states[k], added[k], states[k + 1])
    ensures WeaklyOrdered(states[|added|]) && IsSubsequence(states[0], states[|added|])
  {
    if added == [] {
      SubsequenceRefl(states[0]);
    } else {
      var n := |added| - 1;
      AddsKeepOrder(states[..n + 1], added[..n]);
      assert AddStep(states[n], added[n], states[n + 1]);
      var i :| 0 <= i <= |states[n]| && IsSortIndex(states[n], added[n], i) &&
        states[n + 1] == Inserted(states[n], i, added[n]);
      InsertKeepsOrder(states[n], added[n], i);
      InsertedIsLonger(states[n], i, added[n]);
      SubsequenceTrans(states[0], states[n], states[n + 1]);
    }
  }

  // ----- fixing the order

  function SortIndex(s: seq<FstabEntry>, x: FstabEntry): (i: nat)
    ensures IsSortIndex(s, x, i)
  {
    if s == [] || Under(s[0], x) then 0 else 1 + SortIndex(s[1..], x)
  }

  /** There is only one sort index. */
  lemma SortIndexIs(s: seq<FstabEntry>, x: FstabEntry, i: nat)
    requires IsSortIndex(s, x, i)
    ensures i == SortIndex(s, x)
  {
  }

  /** The list that adding the entries one after the other makes. */
  function Readded(s: seq<FstabEntry>): (r: seq<FstabEntry>)
    ensures |r| == |s|
  {
    if s == [] then []
    else
      var front, x := Readded(s[..|s| - 1]), s[|s| - 1];
      Inserted(front, SortIndex(front, x), x)
  }

  lemma InsertedMultiset(s: seq<FstabEntry>, i: nat, x: FstabEntry)
    requires i <= |s|
    ensures multiset(Inserted(s, i, x)) == multiset(s) + multiset{x}
  {
    assert s == s[..i] + s[i..];
  }

  /** Adding one by one gives a weakly ordered permutation. */
  lemma {:induction false} ReaddedIsOrdered(s: seq<FstabEntry>)
    ensures multiset(Readded(s)) == multiset(s) && WeaklyOrdered(Readded(s))
    ensures Distinct(s) ==> Distinct(Readded(s))
  {
    if s != [] {
      var front, x := s[..|s| - 1], s[|s| - 1];
      assert s == front + [x];
      ReaddedIsOrdered(front);
      InsertedMultiset(Readded(front), SortIndex(Readded(front), x), x);
      InsertKeepsOrder(Readded(front), x, SortIndex(Readded(front), x));
      if Distinct(s) {
        DistinctByMultiset(s, Readded(s));
      }
    }
  }

  lemma ReaddedMembers(s: seq<FstabEntry>, x: FstabEntry)
    ensures x in Readded(s) <==> x in s
  {
    ReaddedIsOrdered(s);
    assert x in multiset(Readded(s)) <==> x in multiset(s);
  }

  lemma ReaddedNext(s: seq<FstabEntry>, x: FstabEntry)
    ensures Readded(s + [x]) == Inserted(Readded(s), SortIndex(Readded(s), x), x)
  {
    assert (s + [x])[..|s|] == s;
  }

  /** The entries that come after one at or below their mount point. */
  ghost function Troubled(s: seq<FstabEntry>): set<FstabEntry> {
    set i | 0 <= i < |s| && Problem(s, i) :: s[i]
  }

  /** All but the troubled entries keep their order. */
  lemma {:induction false} OthersKeepOrder(s: seq<FstabEntry>, bad: set<FstabEntry>)
    requires forall i :: 0 <= i < |s| ==> (s[i] in bad <==> Problem(s, i))
    ensures Survivors(Readded(s), bad) == Survivors(s, bad)
  {
    if s != [] {
      var front, x := s[..|s| - 1], s[|s| - 1];
      assert s == front + [x];
      forall i | 0 <= i < |front| ensures front[i] in bad <==> Problem(front, i) {
        ProblemInFront(s, i);
      }
      OthersKeepOrder(front, bad);
      ReaddedNext(front, x);
      SurvivorsSnoc(front, x, bad);
      if x in bad {
        SurvivorsInsert(Readded(front), bad, SortIndex(Readded(front), x), x);
      } else {
        NoneUnder(s, |front|);
        NotTroubled(front, x);
        SurvivorsSnoc(Readded(front), x, bad);
      }
    }
  }

  lemma ProblemInFront(s: seq<FstabEntry>, i: nat)
    requires i + 1 < |s|
    ensures Problem(s, i) <==> Problem(s[..|s| - 1], i)
  {
    assert forall j :: 0 <= j <= i ==> s[..|s| - 1][j] == s[j];
  }

  /** An entry with none under it among those before is added at the end. */
  lemma NotTroubled(front: seq<FstabEntry>, x: FstabEntry)
    requires forall y :: y in front ==> !Under(y, x)
    ensures Readded(front + [x]) == Readded(front) + [x]
  {
    ReaddedNext(front, x);
    var r := Readded(front);
    forall j | 0 <= j < |r| ensures !Under(r[j], x) {
      ReaddedMembers(front, r[j]);
    }
    SortIndexIs(r, x, |r|);
  }

  lemma NoneUnder(s: seq<FstabEntry>, i: nat)
    requires i < |s|
    ensures Problem(s, i) <==> exists y :: y in s[..i] && Under(y, s[i])
  {
    if Problem(s, i) {
      var j :| 0 <= j < i && Under(s[j], s[i]);
      assert s[..i][j] == s[j];
    }
  }

  // ----- fixing the order in place

  /** The problematic entry at p goes to where it belongs among the entries before p. */
  lemma MovesUp(s: seq<FstabEntry>, p: nat, i: nat)
    requires p < |s| && Problem(s, p)
    requires IsSortIndex(s[..p] + s[p + 1..], s[p], i)
    ensures i < p && i == SortIndex(s[..p], s[p])
    ensures Inserted(s[..p] + s[p + 1..], i, s[p]) == Inserted(s[..p], i, s[p]) + s[p + 1..]
  {
    var front, back, taken := s[..p], s[p + 1..], s[..p] + s[p + 1..];
    var j :| 0 <= j < p && Under(s[j], s[p]);
    assert taken[j] == s[j];
    assert forall k :: 0 <= k < p ==> taken[k] == front[k];
    SortIndexIs(front, s[p], i);
    assert taken[..i] == front[..i] && taken[i..] == front[i..] + back;
  }

  /** The list when the entries before position b have been seen. */
  ghost function Halfway(s: seq<FstabEntry>, b: nat): (r: seq<FstabEntry>)
    requires b <= |s|
    ensures |r| == |s|
  {
    Readded(s[..b]) + s[b..]
  }

  lemma HalfwayAt(s: seq<FstabEntry>, b: nat)
    requires b < |s|
    ensures Halfway(s, b)[..b] == Readded(s[..b]) && Halfway(s, b)[b] == s[b]
  {
  }

  lemma HalfwayNext(s: seq<FstabEntry>, b: nat)
    requires b < |s| && !Problem(Halfway(s, b), b)
    ensures Halfway(s, b + 1) == Halfway(s, b)
  {
    var front, x, back := s[..b], s[b], s[b + 1..];
    HalfwayAt(s, b);
    NoneUnder(Halfway(s, b), b);
    forall y | y in front ensures !Under(y, x) {
      ReaddedMembers(front, y);
    }
    NotTroubled(front, x);
    assert s[..b + 1] == front + [x] && s[b..] == [x] + back;
    assert Readded(front) + ([x] + back) == (Readded(front) + [x]) + back;
  }

  /** Where there is no problem, there is nothing to do. */
  lemma {:induction false} NothingToDo(s: seq<FstabEntry>, a: nat, b: nat)
    requires a <= b <= |s| && forall i :: a <= i < b ==> !Problem(Halfway(s, a), i)
    ensures Halfway(s, a) == Halfway(s, b)
  {
    if a < b {
      NothingToDo(s, a, b - 1);
      HalfwayNext(s, b - 1);
    }
  }

  /** The entry at p now stands where it belongs among those that were before it. */
  ghost predicate IsMoved(was: seq<FstabEntry>, p: nat, now: seq<FstabEntry>) {
    p < |was| && now == Inserted(was[..p], SortIndex(was[..p], was[p]), was[p]) + was[p + 1..]
  }

  /** Moving the problematic entry at p goes one step on. */
  lemma OneIsMoved(s: seq<FstabEntry>, p: nat, now: seq<FstabEntry>)
    requires p < |s| && IsMoved(Halfway(s, p), p, now)
    ensures now == Halfway(s, p + 1)
  {
    HalfwayAt(s, p);
    ReaddedNext(s[..p], s[p]);
    assert s[..p + 1] == s[..p] + [s[p]];
    assert Halfway(s, p)[p + 1..] == s[p + 1..];
  }

  lemma HalfwayIsDistinct(s: seq<FstabEntry>, b: nat)
    requires Distinct(s) && b <= |s|
    ensures Distinct(Halfway(s, b))
  {
    ReaddedIsOrdered(s[..b]);
    assert s == s[..b] + s[b..];
    DistinctByMultiset(s, Halfway(s, b));
  }

  lemma TakenIsGone(s: seq<FstabEntry>, p: nat)
    requires Distinct(s) && p < |s|
    ensures s[p] !in s[..p] + s[p + 1..]
  {
  }

  lemma SameMountPoints(s: seq<FstabEntry>, t: seq<FstabEntry>)
    requires Distinct(s) && Distinct(t) && multiset(s) == multiset(t) && DistinctMountPoints(s)
    ensures DistinctMountPoints(t)
  {
    forall i, j | 0 <= i < j < |t| ensures t[i].mountPoint != t[j].mountPoint {
      assert t[i] in multiset(s) && t[j] in multiset(s);
      var a :| 0 <= a < |s| && s[a] == t[i];
      var b :| 0 <= b < |s| && s[b] == t[j];
    }
  }

  /** In a weakly ordered list the only problems left are repeated mount points. */
  lemma ProblemsAreRepetitions(s: seq<FstabEntry>)
    requires WeaklyOrdered(s)
    ensures (forall i :: 0 <= i < |s| ==> !Problem(s, i)) <==> DistinctMountPoints(s)
  {
    forall i, j | 0 <= i < j < |s| ensures Under(s[i], s[j]) <==> s[i].mountPoint == s[j].mountPoint {
      assert !StrictlyUnder(s[i], s[j]);
    }
    if forall i :: 0 <= i < |s| ==> !Problem(s, i) {
      forall i, j | 0 <= i < j < |s| ensures s[i].mountPoint != s[j].mountPoint {
        assert !Problem(s, j);
      }
    }
  }

  /** Reordering entries into a weak order leaves problems exactly if some mount point occurs twice. */
  lemma FixedUnlessRepeated(s: seq<FstabEntry>, t: seq<FstabEntry>)
    requires Distinct(s) && Distinct(t) && multiset(s) == multiset(t) && WeaklyOrdered(t)
    ensures (forall i :: 0 <= i < |t| ==> !Problem(t, i)) <==> DistinctMountPoints(s)
  {
    ProblemsAreRepetitions(t);
    if DistinctMountPoints(s) {
      SameMountPoints(s, t);
    }
    if DistinctMountPoints(t) {
      SameMountPoints(t, s);
    }
  }

  /**
   * t is s in a weak order; problems are left exactly if some mount point occurs twice; and all entries without a
   * problem in s keep their order.
   */
  ghost predicate IsFixed(s: seq<FstabEntry>, t: seq<FstabEntry>) {
    && multiset(t) == multiset(s) && WeaklyOrdered(t)
    && ((forall i :: 0 <= i < |t| ==> !Problem(t, i)) <==> DistinctMountPoints(s))
    && ((forall i :: 0 <= i < |s| ==> !Problem(s, i)) ==> t == s)
    && OthersInOrder(s, t)
  }

  ghost predicate OthersInOrder(s: seq<FstabEntry>, t: seq<FstabEntry>) {
    exists kept :: IsRest(s, Troubled(s), kept) && IsRest(t, Troubled(s), kept)
  }

  /** Adding all entries again fixes the list. */
  lemma ReaddedIsFixed(s: seq<FstabEntry>)
    requires Distinct(s)
    ensures Distinct(Readded(s)) && IsFixed(s, Readded(s))
  {
    ReaddedIsOrdered(s);
    FixedUnlessRepeated(s, Readded(s));
    NothingMoved(s);
    OthersStay(s);
  }

  lemma HalfwayEnds(s: seq<FstabEntry>)
    ensures Halfway(s, 0) == s && Halfway(s, |s|) == Readded(s)
  {
    assert s[..|s|] == s;
  }

  lemma NothingMoved(s: seq<FstabEntry>)
    ensures (forall i :: 0 <= i < |s| ==> !Problem(s, i)) ==> Readded(s) == s
  {
    HalfwayEnds(s);
    if forall i :: 0 <= i < |s| ==> !Problem(s, i) {
      NothingToDo(s, 0, |s|);
    }
  }

  lemma OthersStay(s: seq<FstabEntry>)
    requires Distinct(s)
    ensures OthersInOrder(s, Readded(s))
  {
    OthersKeepOrder(s, Troubled(s));
    SurvivorsAreRest(s, Troubled(s));
    SurvivorsAreRest(Readded(s), Troubled(s));
  }

  class EtcFstab {

    var entries: seq<FstabEntry>

    constructor (list: seq<FstabEntry>)
      ensures entries == list
    {
      entries := list;
    }

    /** The first entry under the given one, other than itself. */
    method FindSortIndex(entry: FstabEntry) returns (index: int)
      ensures -1 <= index < |entries|
      ensures index >= 0 ==> Under(entries[index], entry) && entries[index] != entry
      ensures forall j :: 0 <= j < (if index < 0 then |entries| else index) ==>
        entries[j] == entry || !Under(entries[j], entry)
    {
      for i := 0 to |entries|
        invariant forall j :: 0 <= j < i ==> entries[j] == entry || !Under(entries[j], entry)
      {
        if entry.mountPoint <= entries[i].mountPoint && entry != entries[i] {
          return i;
        }
      }
      return -1;
    }

    /** Adds an entry before anything mounted into its mount tree. */
    method Add(entry: FstabEntry) returns (ghost i: nat)
      requires entry !in entries
      modifies this
      ensures IsSortIndex(old(entries), entry, i) && entries == Inserted(old(entries), i, entry)
      ensures old(WeaklyOrdered(entries)) ==> WeaklyOrdered(entries)
      ensures IsSubsequence(old(entries), entries)
    {
      var index := FindSortIndex(entry);
      i := if index < 0 then |entries| else index;
      assert IsSortIndex(entries, entry, i);
      if WeaklyOrdered(entries) {
        InsertKeepsOrder(entries, entry, i);
      }
      InsertedIsLonger(entries, i, entry);
      if index < 0 {
        assert entries + [entry] == Inserted(entries, |entries|, entry);
        entries := entries + [entry];
      } else {
        entries := entries[..index] + [entry] + entries[index..];
      }
    }

    /** The first problem at or after start, or -1. */
    method NextMountOrderProblem(start: nat) returns (index: int)
      requires Distinct(entries)
      ensures index == -1 || start <= index < |entries|
      ensures index >= 0 ==> Problem(entries, index)
      ensures forall i :: start <= i < (if index < 0 then |entries| else index) ==> !Problem(entries, i)
    {
      var i := start;
      while i < |entries|
        invariant start <= i
        invariant forall k :: start <= k < i && k < |entries| ==> !Problem(entries, k)
      {
        var found := FindSortIndex(entries[i]);
        if found != -1 && found < i {
          return i;
        }
        i := i + 1;
      }
      return -1;
    }

    method CheckMountOrder() returns (ok: bool)
      requires Distinct(entries)
      ensures ok <==> forall i :: 0 <= i < |entries| ==> !Problem(entries, i)
    {
      var index := NextMountOrderProblem(0);
      ok := index == -1;
    }

    /**
     * Moves every problematic entry up; each position is visited once, so duplicates cannot make it loop.  What comes
     * out is the list that adding all entries again would make.
     */
    method FixMountOrder()
      requires Distinct(entries)
      modifies this
      ensures entries == Readded(old(entries)) && Distinct(entries) && IsFixed(old(entries), entries)
    {
      ghost var s := entries;
      HalfwayEnds(s);
      var start: nat := 0;
      while start < |entries|
        invariant start <= |s| && entries == Halfway(s, start)
        decreases |s| - start
      {
        start := FixNext(s, start);
      }
      assert start == |s|;
      ReaddedIsFixed(s);
    }

    /** One round: moves the next problematic entry, and says where to go on; at the end if there is none. */
    method FixNext(ghost s: seq<FstabEntry>, start: nat) returns (next: nat)
      requires Distinct(s) && start < |s| && entries == Halfway(s, start)
      modifies this
      ensures start < next <= |s| && entries == Halfway(s, next)
    {
      HalfwayIsDistinct(s, start);
      var problem := NextMountOrderProblem(start);
      if problem == -1 {
        NothingToDo(s, start, |s|);
        return |entries|;
      }
      NothingToDo(s, start, problem);
      Move(problem);
      OneIsMoved(s, problem, entries);
      next := problem + 1;
    }

    /** Takes the entry at the given position out and adds it again: directly before the first entry under it. */
    method Move(problem: nat)
      requires Distinct(entries) && problem < |entries| && Problem(entries, problem)
      modifies this
      ensures IsMoved(old(entries), problem, entries)
    {
      var entry := entries[problem];
      ghost var before := entries;
      TakenIsGone(before, problem);
      entries := entries[..problem] + entries[problem + 1..];
      ghost var i := Add(entry);
      MovesUp(before, problem, i);
    }
  }
}
