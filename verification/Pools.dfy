/** Pools: membership, the largest partition size, and choosing the slots for new partitions. */
module Pools {

  import opened Wrappers
  import opened Sequences
  import opened Actions

  /** An unused slot; start and length are in blocks, usable says that a primary or a logical partition is possible. */
  datatype Slot = Slot(start: nat, length: nat, usable: bool)

  /** The partition table of a partitionable, with its unused slots. */
  datatype Table = Table(sid: Sid, blockSize: nat, slots: seq<Slot>)
  {
    function Bytes(i: nat): nat
      requires i < |slots|
    {
      slots[i].length * blockSize
    }

    predicate HasUsable() {
      exists i :: 0 <= i < |slots| && slots[i].usable
    }

    /** A partition of this size can be put into one of the slots. */
    predicate Takes(size: nat) {
      exists i :: 0 <= i < |slots| && slots[i].usable && Bytes(i) >= size
    }
  }

  datatype Outcome<T> = Done(value: T) | IllegalNumber | OutOfSpace

  // ----- scanning one table

  /** Among the first n slots, i is the first usable one with the greatest start. */
  predicate IsTop(t: Table, n: nat, i: nat) {
    && i < n <= |t.slots| && t.slots[i].usable
    && (forall j :: 0 <= j < n && t.slots[j].usable ==> t.slots[j].start <= t.slots[i].start)
    && (forall j :: 0 <= j < i && t.slots[j].usable ==> t.slots[j].start < t.slots[i].start)
  }

  /** The slot max_partition_size takes for the biggest one: it compares regions, that is their starts. */
  function Top(t: Table, n: nat): (r: Option<nat>)
    requires n <= |t.slots|
    ensures r.None? <==> forall j :: 0 <= j < n ==> !t.slots[j].usable
    ensures r.Some? ==> IsTop(t, n, r.value)
  {
    if n == 0 then None
    else
      var r := Top(t, n - 1);
      if t.slots[n - 1].usable && (r.None? || t.slots[n - 1].start > t.slots[r.value].start) then Some(n - 1) else r
  }

  /** Among the first n slots, i is the first usable and long enough one with the least start. */
  predicate IsBest(t: Table, size: nat, n: nat, i: nat) {
    && i < n <= |t.slots| && t.slots[i].usable && t.Bytes(i) >= size
    && (forall j :: 0 <= j < n && t.slots[j].usable && t.Bytes(j) >= size ==> t.slots[i].start <= t.slots[j].start)
    && (forall j :: 0 <= j < i && t.slots[j].usable && t.Bytes(j) >= size ==> t.slots[i].start < t.slots[j].start)
  }

  function Best(t: Table, size: nat, n: nat): (r: Option<nat>)
    requires n <= |t.slots|
    ensures r.None? <==> forall j :: 0 <= j < n ==> !(t.slots[j].usable && t.Bytes(j) >= size)
    ensures r.Some? ==> IsBest(t, size, n, r.value)
  {
    if n == 0 then None
    else
      var r := Best(t, size, n - 1);
      if t.slots[n - 1].usable && t.Bytes(n - 1) >= size && (r.None? || t.slots[n - 1].start < t.slots[r.value].start)
      then Some(n - 1) else r
  }

  /** The bytes of the longest usable slot among the first n. */
  function Longest(t: Table, n: nat): (r: nat)
    requires n <= |t.slots|
    ensures forall j :: 0 <= j < n && t.slots[j].usable ==> t.Bytes(j) <= r
    ensures r > 0 || (exists j :: 0 <= j < n && t.slots[j].usable) ==>
      exists j :: 0 <= j < n && t.slots[j].usable && t.Bytes(j) == r
  {
    if n == 0 then 0
    else
      var r := Longest(t, n - 1);
      if t.slots[n - 1].usable && t.Bytes(n - 1) >= r then t.Bytes(n - 1) else r
  }

  lemma TakesUpToLongest(t: Table, size: nat)
    ensures t.Takes(size) <==> t.HasUsable() && size <= Longest(t, |t.slots|)
  {
  }

  method FindBiggest(t: Table) returns (biggest: Option<nat>)
    ensures biggest == Top(t, |t.slots|)
  {
    biggest := None;
    for i := 0 to |t.slots|
      invariant biggest == Top(t, i)
    {
      if t.slots[i].usable && (biggest.None? || t.slots[i].start > t.slots[biggest.value].start) {
        biggest := Some(i);
      }
    }
  }

  method FindBest(t: Table, size: nat) returns (best: Option<nat>)
    ensures best == Best(t, size, |t.slots|)
  {
    best := None;
    for i := 0 to |t.slots|
      invariant best == Best(t, size, i)
    {
      if t.slots[i].usable && t.Bytes(i) >= size && (best.None? || t.slots[i].start < t.slots[best.value].start) {
        best := Some(i);
      }
    }
  }

  // ----- counting tables

  /** How many of the values are at least s. */
  function Counting(values: seq<nat>, s: nat): nat {
    if values == [] then 0
    else Counting(values[..|values| - 1], s) + (if values[|values| - 1] >= s then 1 else 0)
  }

  /** How many tables take a partition of this size. */
  function Fitting(tables: seq<Table>, size: nat): nat {
    if tables == [] then 0
    else Fitting(tables[..|tables| - 1], size) + (if tables[|tables| - 1].Takes(size) then 1 else 0)
  }

  /** The sizes max_partition_size collects. */
  function Tops(tables: seq<Table>): seq<nat> {
    if tables == [] then []
    else
      var t := tables[|tables| - 1];
      var top := Top(t, |t.slots|);
      Tops(tables[..|tables| - 1]) + (if top.Some? then [t.Bytes(top.value)] else [])
  }

  /** The lengths of the longest usable slots. */
  function Longests(tables: seq<Table>): seq<nat> {
    if tables == [] then []
    else
      var t := tables[|tables| - 1];
      Longests(tables[..|tables| - 1]) + (if t.HasUsable() then [Longest(t, |t.slots|)] else [])
  }

  /** at lists, in order, the tables that have a usable slot. */
  ghost predicate AreUsableTables(at: seq<nat>, tables: seq<Table>) {
    && (forall m :: 0 <= m < |at| ==> at[m] < |tables|)
    && (forall m, n :: 0 <= m < n < |at| ==> at[m] < at[n])
    && (forall k: nat :: k < |tables| ==> (k in at <==> tables[k].HasUsable()))
  }

  /** x is the size of the first usable slot with the greatest start. */
  predicate IsTopSize(t: Table, x: nat) {
    exists i :: 0 <= i < |t.slots| && IsTop(t, |t.slots|, i) && x == t.Bytes(i)
  }

  /** x is the size of a longest usable slot. */
  predicate IsLongestSize(t: Table, x: nat) {
    && (exists i :: 0 <= i < |t.slots| && t.slots[i].usable && t.Bytes(i) == x)
    && (forall i :: 0 <= i < |t.slots| && t.slots[i].usable ==> t.Bytes(i) <= x)
  }

  /** One value each for the tables at these places. */
  ghost predicate AreSizes(at: seq<nat>, tables: seq<Table>, tops: seq<nat>, longests: seq<nat>) {
    && |at| == |tops| == |longests|
    && (forall m :: 0 <= m < |at| ==> at[m] < |tables| && IsTopSize(tables[at[m]], tops[m]))
    && (forall m :: 0 <= m < |at| ==> at[m] < |tables| && IsLongestSize(tables[at[m]], longests[m]))
  }

  /** The values are what is collected of the tables at these places, which are all that have a usable slot. */
  ghost predicate AreCollected(at: seq<nat>, tables: seq<Table>, tops: seq<nat>, longests: seq<nat>) {
    AreUsableTables(at, tables) && AreSizes(at, tables, tops, longests)
  }

  /** Which values are collected: of every table with a usable slot, in order, the size of the slot that starts last. */
  lemma {:induction false} TopsMean(tables: seq<Table>) returns (at: seq<nat>)
    ensures AreCollected(at, tables, Tops(tables), Longests(tables))
  {
    if tables == [] {
      at := [];
    } else {
      var front, t := tables[..|tables| - 1], tables[|tables| - 1];
      at := TopsMean(front);
      at := OneMoreCollected(at, front, t);
      assert tables == front + [t];
    }
  }

  lemma OneMoreCollected(at: seq<nat>, front: seq<Table>, t: Table) returns (at': seq<nat>)
    requires AreCollected(at, front, Tops(front), Longests(front))
    ensures AreCollected(at', front + [t], Tops(front + [t]), Longests(front + [t]))
  {
    at' := if t.HasUsable() then at + [|front|] else at;
    UsableTablesNext(at, front, t);
    TopsSnoc(front, t);
    if t.HasUsable() {
      var top, longest := t.Bytes(Top(t, |t.slots|).value), Longest(t, |t.slots|);
      SizesNext(at, front, t, Tops(front), Longests(front), top, longest);
    } else {
      SizesStay(at, front, t, Tops(front), Longests(front));
    }
  }

  lemma TopsSnoc(front: seq<Table>, t: Table)
    ensures if t.HasUsable() then
              && Top(t, |t.slots|).Some? && IsTopSize(t, t.Bytes(Top(t, |t.slots|).value))
              && IsLongestSize(t, Longest(t, |t.slots|))
              && Tops(front + [t]) == Tops(front) + [t.Bytes(Top(t, |t.slots|).value)]
              && Longests(front + [t]) == Longests(front) + [Longest(t, |t.slots|)]
            else
              Tops(front + [t]) == Tops(front) && Longests(front + [t]) == Longests(front)
  {
    assert (front + [t])[..|front|] == front;
    assert Top(t, |t.slots|).Some? <==> t.HasUsable();
  }

  lemma SizesStay(at: seq<nat>, front: seq<Table>, t: Table, tops: seq<nat>, longests: seq<nat>)
    requires AreSizes(at, front, tops, longests)
    ensures AreSizes(at, front + [t], tops, longests)
  {
  }

  lemma UsableTablesNext(at: seq<nat>, front: seq<Table>, t: Table)
    requires AreUsableTables(at, front)
    ensures AreUsableTables(if t.HasUsable() then at + [|front|] else at, front + [t])
  {
    var at' := if t.HasUsable() then at + [|front|] else at;
    forall j: nat | j < |front + [t]| ensures j in at' <==> (front + [t])[j].HasUsable() {
      if j < |front| {
        assert (front + [t])[j] == front[j];
      }
    }
  }

  lemma SizesNext(at: seq<nat>, front: seq<Table>, t: Table, tops: seq<nat>, longests: seq<nat>, top: nat, longest: nat)
    requires AreSizes(at, front, tops, longests) && IsTopSize(t, top) && IsLongestSize(t, longest)
    ensures AreSizes(at + [|front|], front + [t], tops + [top], longests + [longest])
  {
  }

  lemma {:induction false} FittingIsCounting(tables: seq<Table>, size: nat)
    ensures Fitting(tables, size) == Counting(Longests(tables), size)
  {
    if tables != [] {
      var t, rest := tables[|tables| - 1], tables[..|tables| - 1];
      FittingIsCounting(rest, size);
      TakesUpToLongest(t, size);
      if t.HasUsable() {
        assert Longests(tables)[..|Longests(rest)|] == Longests(rest);
      } else {
        assert Longests(tables) == Longests(rest);
      }
    }
  }

  /** Every collected size is at most the longest slot's. */
  lemma {:induction false} TopsAreBelow(tables: seq<Table>)
    ensures |Tops(tables)| == |Longests(tables)|
    ensures forall i :: 0 <= i < |Tops(tables)| ==> Tops(tables)[i] <= Longests(tables)[i]
  {
    if tables != [] {
      var t := tables[|tables| - 1];
      TopsAreBelow(tables[..|tables| - 1]);
      assert Top(t, |t.slots|).Some? <==> t.HasUsable();
    }
  }

  lemma {:induction false} CountingIsMonotone(low: seq<nat>, high: seq<nat>, s: nat)
    requires |low| == |high| && forall i :: 0 <= i < |low| ==> low[i] <= high[i]
    ensures Counting(low, s) <= Counting(high, s) <= |high|
  {
    if low != [] {
      CountingIsMonotone(low[..|low| - 1], high[..|high| - 1], s);
    }
  }

  lemma {:induction false} CountingDiffers(low: seq<nat>, high: seq<nat>, i: nat)
    requires |low| == |high| && forall i :: 0 <= i < |low| ==> low[i] <= high[i]
    requires i < |low| && low[i] < high[i]
    ensures Counting(low, high[i]) < Counting(high, high[i])
  {
    if i == |low| - 1 {
      CountingIsMonotone(low[..i], high[..i], high[i]);
    } else {
      CountingDiffers(low[..|low| - 1], high[..|high| - 1], i);
    }
  }

  lemma {:induction false} CountingShrinks(values: seq<nat>, s: nat, s': nat)
    requires s <= s'
    ensures Counting(values, s') <= Counting(values, s) <= |values|
    ensures s == 0 ==> Counting(values, s) == |values|
  {
    if values != [] {
      CountingShrinks(values[..|values| - 1], s, s');
    }
  }

  // ----- the n-th largest value

  /** x is where the values that are at least x stop being n: the n-th largest value. */
  predicate IsNthLargest(values: seq<nat>, n: nat, x: nat) {
    Counting(values, x) >= n > Counting(values, x + 1)
  }

  function InsertDescending(s: seq<nat>, x: nat): (r: seq<nat>)
    ensures |r| == |s| + 1
  {
    if s == [] || s[|s| - 1] >= x then s + [x] else InsertDescending(s[..|s| - 1], x) + [s[|s| - 1]]
  }

  ghost predicate Descending(s: seq<nat>) {
    forall i, j :: 0 <= i < j < |s| ==> s[i] >= s[j]
  }

  lemma {:induction false} InsertCounts(s: seq<nat>, x: nat, v: nat)
    ensures Counting(InsertDescending(s, x), v) == Counting(s, v) + (if x >= v then 1 else 0)
  {
    if s == [] || s[|s| - 1] >= x {
      assert (s + [x])[..|s|] == s;
    } else {
      var n := |s| - 1;
      InsertCounts(s[..n], x, v);
      assert (InsertDescending(s[..n], x) + [s[n]])[..|s|] == InsertDescending(s[..n], x);
    }
  }

  lemma {:induction false} InsertKeepsOrder(s: seq<nat>, x: nat)
    requires Descending(s)
    ensures Descending(InsertDescending(s, x))
    ensures forall y :: y in InsertDescending(s, x) ==> y == x || y in s
  {
    if s != [] && s[|s| - 1] < x {
      var n := |s| - 1;
      InsertKeepsOrder(s[..n], x);
      var r := InsertDescending(s[..n], x);
      forall i | 0 <= i < |r| ensures r[i] >= s[n] {
        assert r[i] in r && (r[i] == x || r[i] in s[..n]);
      }
    }
  }

  lemma {:induction false} CountingOfDescending(s: seq<nat>, n: nat)
    requires Descending(s) && 0 < n <= |s|
    ensures IsNthLargest(s, n, s[n - 1])
  {
    var last := |s| - 1;
    if n == |s| {
      CountingShrinks(s[..last], s[last], s[last] + 1);
      AllCount(s, s[last]);
    } else {
      CountingOfDescending(s[..last], n);
    }
  }

  lemma {:induction false} AllCount(s: seq<nat>, v: nat)
    requires forall i :: 0 <= i < |s| ==> s[i] >= v
    ensures Counting(s, v) == |s|
  {
    if s != [] {
      AllCount(s[..|s| - 1], v);
    }
  }

  /** What nth_element with greater leaves at position n - 1. */
  method NthElement(values: seq<nat>, n: nat) returns (x: nat)
    requires 0 < n <= |values|
    ensures IsNthLargest(values, n, x)
  {
    var sorted: seq<nat> := [];
    for i := 0 to |values|
      invariant |sorted| == i && Descending(sorted)
      invariant forall v: nat :: Counting(sorted, v) == Counting(values[..i], v)
    {
      forall v: nat ensures Counting(InsertDescending(sorted, values[i]), v) == Counting(values[..i + 1], v) {
        InsertCounts(sorted, values[i], v);
        assert values[..i + 1][..i] == values[..i];
      }
      InsertKeepsOrder(sorted, values[i]);
      sorted := InsertDescending(sorted, values[i]);
    }
    assert values[..|values|] == values;
    CountingOfDescending(sorted, n);
    x := sorted[n - 1];
  }

  // ----- the largest partition size

  method MaxPartitionSize(tables: seq<Table>, number: nat) returns (r: Outcome<nat>)
    ensures r.IllegalNumber? <==> number == 0
    ensures r.OutOfSpace? <==> 0 < number && |Tops(tables)| < number
    ensures r.Done? ==> IsNthLargest(Tops(tables), number, r.value)
  {
    if number == 0 {
      return IllegalNumber;
    }
    var candidates: seq<nat> := [];
    for k := 0 to |tables|
      invariant candidates == Tops(tables[..k])
    {
      assert tables[..k + 1][..k] == tables[..k];
      var biggest := FindBiggest(tables[k]);
      if biggest.Some? {
        candidates := candidates + [tables[k].Bytes(biggest.value)];
      }
    }
    assert tables[..|tables|] == tables;
    if |candidates| < number {
      return OutOfSpace;
    }
    var x := NthElement(candidates, number);
    r := Done(x);
  }

  // ----- choosing slots

  datatype Pick = Pick(table: nat, slot: nat)

  /** The picks create_partitions would make if it went through all the tables. */
  function Picks(tables: seq<Table>, size: nat): seq<Pick> {
    if tables == [] then []
    else
      var k := |tables| - 1;
      var best := Best(tables[k], size, |tables[k].slots|);
      Picks(tables[..k], size) + (if best.Some? then [Pick(k, best.value)] else [])
  }

  /** The picks are best slots of different tables, one for each table that takes the size, in order. */
  lemma {:induction false} PicksAreGood(tables: seq<Table>, size: nat)
    ensures |Picks(tables, size)| == Fitting(tables, size)
    ensures forall p :: p in Picks(tables, size) ==>
      p.table < |tables| && IsBest(tables[p.table], size, |tables[p.table].slots|, p.slot)
    ensures forall i, j :: 0 <= i < j < |Picks(tables, size)| ==>
      Picks(tables, size)[i].table < Picks(tables, size)[j].table
  {
    if tables != [] {
      var k := |tables| - 1;
      PicksAreGood(tables[..k], size);
      assert Best(tables[k], size, |tables[k].slots|).Some? <==> tables[k].Takes(size);
    }
  }

  /** Every table that takes the size has its pick. */
  lemma {:induction false} EveryTakerIsPicked(tables: seq<Table>, size: nat, k: nat)
    requires k < |tables|
    ensures tables[k].Takes(size) <==> HasPick(Picks(tables, size), k)
  {
    var n := |tables| - 1;
    var front, best := Picks(tables[..n], size), Best(tables[n], size, |tables[n].slots|);
    assert best.Some? <==> tables[n].Takes(size);
    if best.Some? {
      HasPickSnoc(front, Pick(n, best.value), k);
    } else {
      assert Picks(tables, size) == front;
    }
    if k < n {
      EveryTakerIsPicked(tables[..n], size, k);
    } else {
      PicksAreGood(tables[..n], size);
      assert !HasPick(front, n);
    }
  }

  predicate HasPick(picks: seq<Pick>, k: nat) {
    exists p :: p in picks && p.table == k
  }

  lemma HasPickSnoc(front: seq<Pick>, last: Pick, k: nat)
    ensures HasPick(front + [last], k) <==> HasPick(front, k) || last.table == k
  {
    if last.table == k {
      assert last in front + [last];
    }
  }

  function Reversed(s: seq<Pick>): (r: seq<Pick>)
    ensures |r| == |s| && forall i :: 0 <= i < |s| ==> r[i] == s[|s| - 1 - i]
  {
    if s == [] then [] else Reversed(s[1..]) + [s[0]]
  }

  lemma {:induction false} PicksGrow(tables: seq<Table>, size: nat, k: nat)
    requires k <= |tables|
    ensures Picks(tables[..k], size) <= Picks(tables, size)
  {
    if k < |tables| {
      PicksGrow(tables[..|tables| - 1], size, k);
      assert tables[..|tables| - 1][..k] == tables[..k];
    } else {
      assert tables[..k] == tables;
    }
  }

  lemma PicksStep(tables: seq<Table>, size: nat, k: nat)
    requires k < |tables|
    ensures var best := Best(tables[k], size, |tables[k].slots|);
      Picks(tables[..k + 1], size) == Picks(tables[..k], size) + (if best.Some? then [Pick(k, best.value)] else [])
  {
    assert tables[..k + 1][..k] == tables[..k];
  }

  /** The slots for `number` partitions of one size: the first tables that take it, in reverse order. */
  method SelectSlots(tables: seq<Table>, number: nat, size: nat) returns (r: Outcome<seq<Pick>>)
    ensures r.IllegalNumber? <==> number == 0
    ensures r.OutOfSpace? <==> 0 < number && Fitting(tables, size) < number
    ensures r.Done? ==> number <= |Picks(tables, size)| && r.value == Reversed(Picks(tables, size)[..number])
  {
    if number == 0 {
      return IllegalNumber;
    }
    PicksAreGood(tables, size);
    var candidates: seq<Pick> := [];
    var k := 0;
    while k < |tables| && |candidates| != number
      invariant k <= |tables| && |candidates| <= number
      invariant candidates == Picks(tables[..k], size)
    {
      PicksStep(tables, size, k);
      var best := FindBest(tables[k], size);
      if best.Some? {
        candidates := candidates + [Pick(k, best.value)];
      }
      k := k + 1;
    }
    PicksGrow(tables, size, k);
    if |candidates| < number {
      assert tables[..k] == tables;
      return OutOfSpace;
    }
    assert candidates == Picks(tables, size)[..number];
    r := Done(Reversed(candidates));
  }

  // ----- the two scans agree

  /** Once a table takes a size it takes smaller ones, too; so does the selection as a whole. */
  lemma {:induction false} FittingShrinks(tables: seq<Table>, size: nat, size': nat)
    requires size <= size'
    ensures Fitting(tables, size') <= Fitting(tables, size)
  {
    FittingIsCounting(tables, size);
    FittingIsCounting(tables, size');
    CountingShrinks(Longests(tables), size, size');
  }

  /** Selecting slots for `number` partitions of the size max_partition_size returns never runs out of space. */
  lemma MaxSizeCanBeSelected(tables: seq<Table>, number: nat, x: nat)
    requires IsNthLargest(Tops(tables), number, x)
    ensures Fitting(tables, x) >= number
  {
    TopsAreBelow(tables);
    CountingIsMonotone(Tops(tables), Longests(tables), x);
    FittingIsCounting(tables, x);
  }

  /** max_partition_size is out of space exactly if the selection is, for every size. */
  lemma OutOfSpaceForEverySize(tables: seq<Table>, number: nat)
    ensures |Tops(tables)| < number <==> forall size: nat :: Fitting(tables, size) < number
  {
    TopsAreBelow(tables);
    forall size: nat ensures Fitting(tables, size) <= |Longests(tables)| {
      FittingIsCounting(tables, size);
      CountingShrinks(Longests(tables), size, size);
    }
    FittingIsCounting(tables, 0);
    CountingShrinks(Longests(tables), 0, 0);
    assert Fitting(tables, 0) == |Longests(tables)|;
  }

  /** x is the largest size `number` partitions can have. */
  ghost predicate IsLargest(tables: seq<Table>, number: nat, x: nat) {
    Fitting(tables, x) >= number && forall size: nat :: size > x ==> Fitting(tables, size) < number
  }

  /** The usable slot that starts last is a longest one. */
  predicate TopIsLongest(t: Table) {
    t.HasUsable() ==> t.Bytes(Top(t, |t.slots|).value) == Longest(t, |t.slots|)
  }

  ghost predicate LastIsLongest(tables: seq<Table>) {
    forall t :: t in tables ==> TopIsLongest(t)
  }

  lemma {:induction false} LastIsLongestExactly(tables: seq<Table>)
    ensures LastIsLongest(tables) <==> Tops(tables) == Longests(tables)
  {
    if tables != [] {
      var rest, t := tables[..|tables| - 1], tables[|tables| - 1];
      assert tables == rest + [t];
      LastIsLongestExactly(rest);
      TopsAreBelow(rest);
      OneMoreTable(Tops(rest), Longests(rest), t);
    }
  }

  lemma OneMoreTable(tops: seq<nat>, longests: seq<nat>, t: Table)
    requires |tops| == |longests|
    ensures var top := Top(t, |t.slots|);
      var tops', longests' := tops + (if top.Some? then [t.Bytes(top.value)] else []),
                              longests + (if t.HasUsable() then [Longest(t, |t.slots|)] else []);
      tops' == longests' <==> tops == longests && TopIsLongest(t)
  {
    assert Top(t, |t.slots|).Some? <==> t.HasUsable();
    if t.HasUsable() {
      var x, y := t.Bytes(Top(t, |t.slots|).value), Longest(t, |t.slots|);
      assert (tops + [x])[..|tops|] == tops && (longests + [y])[..|tops|] == longests;
      assert (tops + [x])[|tops|] == x && (longests + [y])[|tops|] == y;
    } else {
      assert tops + [] == tops && longests + [] == longests;
    }
  }

  /**
   * When the returned size is the largest possible one, whatever the number of partitions: exactly if in every
   * table the usable slot that starts last is a longest one.
   */
  lemma LargestExactlyWhen(tables: seq<Table>)
    ensures LastIsLongest(tables) <==>
      forall n: nat, x: nat :: 0 < n && IsNthLargest(Tops(tables), n, x) ==> IsLargest(tables, n, x)
  {
    LastIsLongestExactly(tables);
    TopsAreBelow(tables);
    if Tops(tables) == Longests(tables) {
      forall number: nat, x: nat | 0 < number && IsNthLargest(Tops(tables), number, x)
        ensures IsLargest(tables, number, x)
      {
        LargestByLength(tables, number, x);
      }
    } else {
      var i :| 0 <= i < |Tops(tables)| && Tops(tables)[i] != Longests(tables)[i];
      var number, x := NotLargest(tables, i);
    }
  }

  /** With slots compared by length, the n-th largest of the longest slots is the largest size. */
  lemma LargestByLength(tables: seq<Table>, number: nat, x: nat)
    requires 0 < number && IsNthLargest(Longests(tables), number, x)
    ensures IsLargest(tables, number, x)
  {
    FittingIsCounting(tables, x);
    forall size: nat | size > x ensures Fitting(tables, size) < number {
      FittingIsCounting(tables, x + 1);
      FittingShrinks(tables, x + 1, size);
    }
  }

  /** Where a longer slot is passed over, some number of partitions could have been larger. */
  lemma NotLargest(tables: seq<Table>, i: nat) returns (number: nat, x: nat)
    requires i < |Tops(tables)| == |Longests(tables)| && Tops(tables)[i] != Longests(tables)[i]
    ensures 0 < number && IsNthLargest(Tops(tables), number, x) && !IsLargest(tables, number, x)
  {
    var size := Longests(tables)[i];
    TopsAreBelow(tables);
    CountingDiffers(Tops(tables), Longests(tables), i);
    FittingIsCounting(tables, size);
    number := Fitting(tables, size);
    CountingShrinks(Longests(tables), size, size);
    x := NthLargestExists(Tops(tables), number);
    if x >= size {
      CountingShrinks(Tops(tables), size, x);
    }
  }

  lemma NthLargestExists(values: seq<nat>, n: nat) returns (x: nat)
    requires 0 < n <= |values|
    ensures IsNthLargest(values, n, x)
  {
    var top := Highest(values);
    x := 0;
    CountingShrinks(values, 0, 0);
    forall s: nat | s > top ensures Counting(values, s) == 0 {
      NoneAbove(values, s);
    }
    while Counting(values, x + 1) >= n
      invariant x <= top && Counting(values, x) >= n
      decreases top - x
    {
      x := x + 1;
    }
  }

  function Highest(values: seq<nat>): (r: nat)
    ensures forall i :: 0 <= i < |values| ==> values[i] <= r
  {
    if values == [] then 0
    else
      var r, v := Highest(values[..|values| - 1]), values[|values| - 1];
      if v > r then v else r
  }

  lemma {:induction false} NoneAbove(values: seq<nat>, s: nat)
    requires forall i :: 0 <= i < |values| ==> values[i] < s
    ensures Counting(values, s) == 0
  {
    if values != [] {
      NoneAbove(values[..|values| - 1], s);
    }
  }

  /** Ten blocks further back win over a hundred in front: the size returned is not the largest one. */
  lemma ShortLastSlot()
    ensures var tables := [Table(42, 512, [Slot(0, 100, true), Slot(200, 10, true)])];
      IsNthLargest(Tops(tables), 1, 5120) && Fitting(tables, 51200) >= 1
  {
    var t := Table(42, 512, [Slot(0, 100, true), Slot(200, 10, true)]);
    assert Top(t, 1) == Some(0) && Top(t, 2) == Some(1);
    assert t.Bytes(0) == 51200 && t.Takes(51200);
    OneTable(t, 51200);
    assert Counting([5120], 5120) == 1 && Counting([5120], 5121) == 0;
  }

  lemma OneTable(t: Table, size: nat)
    ensures Fitting([t], size) == if t.Takes(size) then 1 else 0
    ensures var top := Top(t, |t.slots|); Tops([t]) == if top.Some? then [t.Bytes(top.value)] else []
  {
    assert [t][..0] == [];
  }

  /** The length in blocks of the new partition, cut to whole blocks, fits into its slot. */
  lemma FitsItsSlot(t: Table, size: nat, i: nat)
    requires t.blockSize > 0 && i < |t.slots| && t.Bytes(i) >= size
    ensures size / t.blockSize <= t.slots[i].length
  {
    QuotientOrder(t.blockSize, size / t.blockSize, t.slots[i].length);
    assert size == t.blockSize * (size / t.blockSize) + size % t.blockSize;
  }

  lemma QuotientOrder(b: nat, q: nat, l: nat)
    ensures q <= l || b * q >= l * b + b
  {
    if q > l {
      assert b * q == b * l + b + b * (q - l - 1);
    }
  }

  // ----- membership

  /** The tables of the pool's devices that have one, in pool order. */
  function Candidates(devices: seq<Sid>, known: map<Sid, Table>): seq<Table> {
    if devices == [] then []
    else
      var d := devices[|devices| - 1];
      Candidates(devices[..|devices| - 1], known) + (if d in known then [known[d]] else [])
  }

  predicate DistinctSids(tables: seq<Table>) {
    forall i, j :: 0 <= i < j < |tables| ==> tables[i].sid != tables[j].sid
  }

  lemma {:induction false} CandidatesAreDistinct(devices: seq<Sid>, known: map<Sid, Table>)
    requires Distinct(devices) && forall d :: d in known ==> known[d].sid == d
    ensures DistinctSids(Candidates(devices, known))
    ensures forall t :: t in Candidates(devices, known) <==> t.sid in devices && t.sid in known && known[t.sid] == t
  {
    if devices != [] {
      var rest := devices[..|devices| - 1];
      assert devices == rest + [devices[|devices| - 1]];
      CandidatesAreDistinct(rest, known);
    }
  }

  /** Whatever order the candidates are sorted into, the picks belong to different devices of the pool. */
  lemma PicksAreDistinctDevices(devices: seq<Sid>, known: map<Sid, Table>, tables: seq<Table>, number: nat, size: nat)
    requires Distinct(devices) && forall d :: d in known ==> known[d].sid == d
    requires multiset(tables) == multiset(Candidates(devices, known))
    requires number <= |Picks(tables, size)|
    ensures var picks := Reversed(Picks(tables, size)[..number]);
      && |picks| == number
      && (forall p :: p in picks ==> IsGoodPick(devices, tables, size, p))
      && DifferentDevices(tables, picks)
  {
    CandidatesAreDistinct(devices, known);
    DistinctSidsByMultiset(Candidates(devices, known), tables);
    PicksAreGood(tables, size);
    var picks := Picks(tables, size);
    forall p | p in picks ensures IsGoodPick(devices, tables, size, p) {
      assert tables[p.table] in multiset(tables);
    }
    InOrderAreDifferent(tables, picks, number);
  }

  /** The pick is the first best slot of a device in the pool. */
  predicate IsGoodPick(devices: seq<Sid>, tables: seq<Table>, size: nat, p: Pick) {
    && p.table < |tables|
    && tables[p.table].sid in devices
    && IsBest(tables[p.table], size, |tables[p.table].slots|, p.slot)
  }

  predicate DifferentDevices(tables: seq<Table>, picks: seq<Pick>) {
    && (forall i :: 0 <= i < |picks| ==> picks[i].table < |tables|)
    && (forall i, j :: 0 <= i < j < |picks| ==> tables[picks[i].table].sid != tables[picks[j].table].sid)
  }

  lemma InOrderAreDifferent(tables: seq<Table>, picks: seq<Pick>, number: nat)
    requires DistinctSids(tables) && number <= |picks|
    requires forall i :: 0 <= i < |picks| ==> picks[i].table < |tables|
    requires forall i, j :: 0 <= i < j < |picks| ==> picks[i].table < picks[j].table
    ensures DifferentDevices(tables, Reversed(picks[..number]))
    ensures forall p :: p in Reversed(picks[..number]) ==> p in picks
  {
    var reversed := Reversed(picks[..number]);
    assert forall i :: 0 <= i < number ==> reversed[i] == picks[number - 1 - i];
  }

  lemma DistinctSidsByMultiset(s: seq<Table>, t: seq<Table>)
    requires DistinctSids(s) && multiset(s) == multiset(t)
    ensures DistinctSids(t)
  {
    DistinctByMultiset(s, t);
    forall i, j | 0 <= i < j < |t| ensures t[i].sid != t[j].sid {
      assert t[i] in multiset(s) && t[j] in multiset(s);
      var a :| 0 <= a < |s| && s[a] == t[i];
      var b :| 0 <= b < |s| && s[b] == t[j];
    }
  }

  class Pool {

    var devices: seq<Sid>

    ghost predicate Valid()
      reads this
    {
      Distinct(devices)
    }

    constructor ()
      ensures Valid() && devices == []
    {
      devices := [];
    }

    /** Throws if the device is in the pool already. */
    method AddDevice(sid: Sid) returns (thrown: bool)
      requires Valid()
      modifies this
      ensures Valid()
      ensures thrown <==> sid in old(devices)
      ensures devices == if thrown then old(devices) else old(devices) + [sid]
    {
      var i := Find(sid);
      thrown := i != |devices|;
      if !thrown {
        devices := devices + [sid];
      }
    }

    /** Throws if the device is not in the pool. */
    method RemoveDevice(sid: Sid) returns (thrown: bool)
      requires Valid()
      modifies this
      ensures Valid()
      ensures thrown <==> sid !in old(devices)
      ensures thrown ==> devices == old(devices)
      ensures !thrown ==> sid !in devices
      ensures !thrown ==>
        exists i :: 0 <= i < |old(devices)| && old(devices)[i] == sid &&
          devices == old(devices)[..i] + old(devices)[i + 1..]
    {
      var i := Find(sid);
      thrown := i == |devices|;
      if !thrown {
        devices := devices[..i] + devices[i + 1..];
      }
    }

    method Find(sid: Sid) returns (i: nat)
      ensures i <= |devices| && (i < |devices| ==> devices[i] == sid)
      ensures i == |devices| <==> sid !in devices
    {
      i := 0;
      while i < |devices| && devices[i] != sid
        invariant i <= |devices| && sid !in devices[..i]
      {
        i := i + 1;
      }
    }
  }
}
