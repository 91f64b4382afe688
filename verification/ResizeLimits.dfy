/** Size limits with a block size, and how limits from several layers are combined. */
module ResizeLimits {

  const TWO_64: nat := 0x1_0000_0000_0000_0000

  /** The bit of RB_MIN_MAX_ERROR: the combined limits leave nothing to resize to. */
  const MIN_MAX_ERROR: nat := 1

  // ----- multiples and rounding, free of division

  predicate IsMultiple(n: nat, m: nat)
    requires m > 0
  {
    if n < m then n == 0 else IsMultiple(n - m, m)
  }

  /** The greatest multiple of m that is not above i. */
  function RoundDown(i: nat, m: nat): (r: nat)
    requires m > 0
    ensures IsMultiple(r, m) && r <= i < r + m
  {
    if i < m then 0 else RoundDown(i - m, m) + m
  }

  /** The least multiple of m that is not below i. */
  function RoundUp(i: nat, m: nat): (r: nat)
    requires m > 0
    ensures IsMultiple(r, m) && i <= r < i + m
  {
    if i == 0 then 0 else if i < m then m else RoundUp(i - m, m) + m
  }

  lemma {:induction false} ModStep(n: nat, m: nat)
    requires m > 0 && n >= m
    ensures n % m == (n - m) % m
  {
    var q, r := (n - m) / m, (n - m) % m;
    assert n == m * (q + 1) + r;
    DivisionUnique(n, m, q + 1, r);
  }

  lemma AtLeastOne(m: nat, k: nat)
    requires k >= 1
    ensures m * k >= m
  {
    assert m * k == m + m * (k - 1);
  }

  lemma SmallerQuotient(m: nat, q: nat, r: nat, q': nat, r': nat)
    requires m * q + r == m * q' + r' && r' < m
    ensures q >= q' || r >= m
  {
    if q < q' {
      AtLeastOne(m, q' - q);
      assert m * q' == m * q + m * (q' - q);
    }
  }

  lemma DivisionUnique(i: nat, m: nat, q: nat, r: nat)
    requires m > 0 && i == m * q + r && r < m
    ensures i % m == r && i / m == q
  {
    var q', r' := i / m, i % m;
    assert i == m * q' + r';
    SmallerQuotient(m, q, r, q', r');
    SmallerQuotient(m, q', r', q, r);
  }

  /** The definitions agree with the division the code uses: i - i % m, and i or i - i % m + m. */
  lemma {:induction false} RoundingByRemainder(i: nat, m: nat)
    requires m > 0
    ensures IsMultiple(i, m) <==> i % m == 0
    ensures RoundDown(i, m) == i - i % m
    ensures RoundUp(i, m) == if i % m == 0 then i else i - i % m + m
  {
    if i < m {
      DivisionUnique(i, m, 0, i);
    } else {
      RoundingByRemainder(i - m, m);
      ModStep(i, m);
      assert (i - m) - (i - m) % m + m == i - i % m;
    }
  }

  lemma {:induction false} MultipleSum(a: nat, b: nat, m: nat)
    requires m > 0 && IsMultiple(a, m)
    ensures IsMultiple(a + b, m) <==> IsMultiple(b, m)
  {
    if a >= m {
      MultipleSum(a - m, b, m);
    }
  }

  /** Two different multiples of m are at least m apart. */
  lemma MultiplesApart(a: nat, b: nat, m: nat)
    requires m > 0 && IsMultiple(a, m) && IsMultiple(b, m) && a < b
    ensures a + m <= b
  {
    MultipleSum(a, b - a, m);
  }

  /** RoundUp gives the least multiple that is not below. */
  lemma LeastAbove(i: nat, m: nat, n: nat)
    requires m > 0 && IsMultiple(n, m)
    ensures RoundUp(i, m) <= n <==> i <= n
  {
    if n < RoundUp(i, m) {
      MultiplesApart(n, RoundUp(i, m), m);
    }
  }

  /** RoundDown gives the greatest multiple that is not above. */
  lemma GreatestBelow(i: nat, m: nat, n: nat)
    requires m > 0 && IsMultiple(n, m)
    ensures n <= RoundDown(i, m) <==> n <= i
  {
    if RoundDown(i, m) < n {
      MultiplesApart(RoundDown(i, m), n, m);
    }
  }

  lemma {:induction false} MultipleTrans(n: nat, b: nat, l: nat)
    requires b > 0 && l > 0 && IsMultiple(l, b) && IsMultiple(n, l)
    ensures IsMultiple(n, b)
  {
    if n >= l {
      MultipleTrans(n - l, b, l);
      MultipleSum(l, n - l, b);
    }
  }

  lemma {:induction false} ProductIsMultiple(k: nat, m: nat)
    requires m > 0
    ensures IsMultiple(m * k, m)
  {
    if k > 0 {
      ProductIsMultiple(k - 1, m);
      assert m * k == m * (k - 1) + m;
      MultipleSum(m, m * (k - 1), m);
      assert IsMultiple(m, m);
    }
  }

  // ----- least common multiple

  predicate CommonMultiple(n: nat, a: nat, b: nat)
    requires a > 0 && b > 0
  {
    n > 0 && IsMultiple(n, a) && IsMultiple(n, b)
  }

  /** The least common multiple from c on, going through the multiples of a; limit is one. */
  function LcmFrom(a: nat, b: nat, c: nat, limit: nat): (r: nat)
    requires a > 0 && b > 0 && c > 0 && IsMultiple(c, a) && c <= limit && CommonMultiple(limit, a, b)
    ensures CommonMultiple(r, a, b)
    decreases limit - c
  {
    if IsMultiple(c, b) then c
    else
      MultiplesApart(c, limit, a);
      MultipleSum(c, a, a);
      LcmFrom(a, b, c + a, limit)
  }

  /** The least common multiple. */
  function Lcm(a: nat, b: nat): (r: nat)
    requires a > 0 && b > 0
    ensures CommonMultiple(r, a, b)
  {
    ProductIsMultiple(b, a);
    ProductIsMultiple(a, b);
    assert a * b == b * a;
    AtLeastOne(a, b);
    LcmFrom(a, b, a, a * b)
  }

  lemma {:induction false} LcmFromLeast(a: nat, b: nat, c: nat, limit: nat, n: nat)
    requires a > 0 && b > 0 && c > 0 && IsMultiple(c, a) && c <= limit && CommonMultiple(limit, a, b)
    requires CommonMultiple(n, a, b) && n >= c
    ensures LcmFrom(a, b, c, limit) <= n
    decreases limit - c
  {
    if !IsMultiple(c, b) {
      MultiplesApart(c, limit, a);
      MultiplesApart(c, n, a);
      MultipleSum(c, a, a);
      LcmFromLeast(a, b, c + a, limit, n);
    }
  }

  lemma LcmLeast(a: nat, b: nat, n: nat)
    requires a > 0 && b > 0 && CommonMultiple(n, a, b)
    ensures Lcm(a, b) <= n
  {
    MultiplesApart(0, n, a);
    ProductIsMultiple(b, a);
    ProductIsMultiple(a, b);
    assert a * b == b * a;
    AtLeastOne(a, b);
    LcmFromLeast(a, b, a, a * b, n);
  }

  /** Exactly the multiples of the least common multiple are multiples of both. */
  lemma {:induction false} LcmDivides(a: nat, b: nat, n: nat)
    requires a > 0 && b > 0
    ensures IsMultiple(n, Lcm(a, b)) <==> IsMultiple(n, a) && IsMultiple(n, b)
  {
    var l := Lcm(a, b);
    if n >= l {
      LcmDivides(a, b, n - l);
      MultipleSum(l, n - l, a);
      MultipleSum(l, n - l, b);
    } else if n > 0 && IsMultiple(n, a) && IsMultiple(n, b) {
      LcmLeast(a, b, n);
    }
  }

  lemma LcmCommutes(a: nat, b: nat)
    requires a > 0 && b > 0
    ensures Lcm(a, b) == Lcm(b, a)
  {
    LcmLeast(a, b, Lcm(b, a));
    LcmLeast(b, a, Lcm(a, b));
  }

  lemma LcmAssociates(a: nat, b: nat, c: nat)
    requires a > 0 && b > 0 && c > 0
    ensures Lcm(Lcm(a, b), c) == Lcm(a, Lcm(b, c))
  {
    var x, y := Lcm(Lcm(a, b), c), Lcm(a, Lcm(b, c));
    LcmDivides(a, b, x);
    LcmDivides(b, c, x);
    LcmLeast(a, Lcm(b, c), x);
    LcmDivides(b, c, y);
    LcmDivides(a, b, y);
    LcmLeast(Lcm(a, b), c, y);
  }

  lemma LcmSame(a: nat)
    requires a > 0
    ensures Lcm(a, a) == a
  {
    LcmLeast(a, a, a);
    MultiplesApart(0, Lcm(a, a), a);
  }

  // ----- rounding inside rounding

  function Max(a: nat, b: nat): nat { if a < b then b else a }
  function Min(a: nat, b: nat): nat { if b < a then b else a }

  /** Rounding up to a divisor first makes no difference. */
  lemma RoundUpTwice(x: nat, y: nat, b: nat, l: nat)
    requires b > 0 && l > 0 && IsMultiple(l, b)
    ensures RoundUp(Max(RoundUp(x, b), y), l) == RoundUp(Max(x, y), l)
  {
    var one, two := RoundUp(Max(x, y), l), RoundUp(Max(RoundUp(x, b), y), l);
    MultipleTrans(one, b, l);
    LeastAbove(x, b, one);
    LeastAbove(Max(RoundUp(x, b), y), l, one);
    LeastAbove(Max(x, y), l, two);
  }

  lemma RoundDownTwice(x: nat, y: nat, b: nat, l: nat)
    requires b > 0 && l > 0 && IsMultiple(l, b)
    ensures RoundDown(Min(RoundDown(x, b), y), l) == RoundDown(Min(x, y), l)
  {
    var one, two := RoundDown(Min(x, y), l), RoundDown(Min(RoundDown(x, b), y), l);
    MultipleTrans(one, b, l);
    GreatestBelow(x, b, one);
    GreatestBelow(Min(RoundDown(x, b), y), l, one);
    GreatestBelow(Min(x, y), l, two);
  }

  // ----- limits

  /** The five fields of a ResizeInfo; the reasons are the bits that are set. */
  datatype Limits = Limits(ok: bool, reasons: set<nat>, min: nat, max: nat, block: nat)
  {
    /** Fits the fields' types and has been through check. */
    predicate Checked() {
      && 0 < block < TWO_64 && min < TWO_64 && max < TWO_64
      && IsMultiple(min, block) && IsMultiple(max, block)
      && (min >= max ==> !ok && MIN_MAX_ERROR in reasons)
    }

    /** Fits the fields' types, with a block size. */
    predicate InRange() {
      0 < block < TWO_64 && min < TWO_64 && max < TWO_64
    }

    /** n is a size within the limits. */
    predicate Admits(n: nat) {
      block > 0 && IsMultiple(n, block) && min <= n <= max
    }
  }

  /** Marks limits that leave nothing. */
  function Flagged(ok: bool, reasons: set<nat>, min: nat, max: nat, block: nat): Limits {
    if min >= max then Limits(false, reasons + {MIN_MAX_ERROR}, min, max, block)
    else Limits(ok, reasons, min, max, block)
  }

  /** The limits both sides allow, rounded to the multiples of l. */
  function CombineWith(a: Limits, b: Limits, l: nat): Limits
    requires l > 0
  {
    Flagged(a.ok && b.ok, a.reasons + b.reasons, RoundUp(Max(a.min, b.min), l), RoundDown(Min(a.max, b.max), l), l)
  }

  /** Combining over the naturals. */
  function Combined(a: Limits, b: Limits): Limits
    requires a.block > 0 && b.block > 0
  {
    CombineWith(a, b, Lcm(a.block, b.block))
  }

  /** Usable if something is left and the limits were usable before; the reasons only ever grow by that one bit. */
  ghost predicate IsMarked(r: Limits, ok: bool, reasons: set<nat>, nothingLeft: bool) {
    && (r.ok <==> ok && !nothingLeft)
    && (forall reason :: reason in r.reasons <==> reason in reasons || (reason == MIN_MAX_ERROR && nothingLeft))
  }

  /** What combining does to each field. */
  lemma CombineMeans(a: Limits, b: Limits)
    requires a.block > 0 && b.block > 0
    ensures var r := Combined(a, b);
      && IsMarked(r, a.ok && b.ok, a.reasons + b.reasons, r.min >= r.max)
      && r.block > 0 && IsMultiple(r.block, a.block) && IsMultiple(r.block, b.block)
      && (forall n: nat :: 0 < n < r.block ==> !(IsMultiple(n, a.block) && IsMultiple(n, b.block)))
      && IsMultiple(r.min, r.block) && a.min <= r.min && b.min <= r.min
      && (r.min < a.min + r.block || r.min < b.min + r.block)
      && IsMultiple(r.max, r.block) && r.max <= a.max && r.max <= b.max
      && (a.max < r.max + r.block || b.max < r.max + r.block)
  {
    var l := Lcm(a.block, b.block);
    forall n: nat | 0 < n < l ensures !(IsMultiple(n, a.block) && IsMultiple(n, b.block)) {
      LcmDivides(a.block, b.block, n);
    }
    LcmDivides(a.block, b.block, l);
    assert IsMultiple(l, l) by { assert IsMultiple(0, l); }
  }

  lemma CombineWithIsIntersection(a: Limits, b: Limits, l: nat, n: nat)
    requires a.block > 0 && b.block > 0 && l > 0
    requires IsMultiple(n, l) <==> IsMultiple(n, a.block) && IsMultiple(n, b.block)
    ensures CombineWith(a, b, l).Admits(n) <==> a.Admits(n) && b.Admits(n)
  {
    if IsMultiple(n, l) {
      LeastAbove(Max(a.min, b.min), l, n);
      GreatestBelow(Min(a.max, b.max), l, n);
    }
  }

  /** The combined limits admit exactly what both admit, and are usable exactly if both were and something is left. */
  lemma CombineIsIntersection(a: Limits, b: Limits, n: nat)
    requires a.block > 0 && b.block > 0
    ensures Combined(a, b).Admits(n) <==> a.Admits(n) && b.Admits(n)
    ensures Combined(a, b).ok <==> a.ok && b.ok && Combined(a, b).min < Combined(a, b).max
  {
    LcmDivides(a.block, b.block, n);
    CombineWithIsIntersection(a, b, Lcm(a.block, b.block), n);
  }

  lemma CombineCommutes(a: Limits, b: Limits)
    requires a.block > 0 && b.block > 0
    ensures Combined(a, b) == Combined(b, a)
  {
    LcmCommutes(a.block, b.block);
    assert a.reasons + b.reasons == b.reasons + a.reasons;
  }

  lemma CombineIsIdempotent(a: Limits)
    requires a.Checked()
    ensures Combined(a, a) == a
  {
    LcmSame(a.block);
    LeastAbove(a.min, a.block, a.min);
    GreatestBelow(a.max, a.block, a.max);
  }

  /** Marking twice, with limits that only get narrower, is marking once at the end. */
  lemma FlagTwice(ok: bool, reasons: set<nat>, block: nat, m1: nat, x1: nat, ok': bool, reasons': set<nat>,
                  block': nat, m2: nat, x2: nat)
    requires m1 <= m2 && x2 <= x1
    ensures var s := Flagged(ok, reasons, m1, x1, block);
      Flagged(s.ok && ok', s.reasons + reasons', m2, x2, block')
        == Flagged(ok && ok', reasons + reasons', m2, x2, block')
  {
    assert reasons + {MIN_MAX_ERROR} + reasons' + {MIN_MAX_ERROR} == reasons + reasons' + {MIN_MAX_ERROR};
  }

  lemma CombineThreeWith(a: Limits, b: Limits, c: Limits, ab: nat, l: nat)
    requires ab > 0 && l > 0 && IsMultiple(l, ab)
    ensures CombineWith(CombineWith(a, b, ab), c, l) ==
      Flagged(a.ok && b.ok && c.ok, a.reasons + b.reasons + c.reasons,
              RoundUp(Max(Max(a.min, b.min), c.min), l), RoundDown(Min(Min(a.max, b.max), c.max), l), l)
  {
    var x, y := Max(a.min, b.min), Min(a.max, b.max);
    RoundUpTwice(x, c.min, ab, l);
    RoundDownTwice(y, c.max, ab, l);
    FlagTwice(a.ok && b.ok, a.reasons + b.reasons, ab, RoundUp(x, ab), RoundDown(y, ab), c.ok, c.reasons,
              l, RoundUp(Max(x, c.min), l), RoundDown(Min(y, c.max), l));
  }

  lemma Regroup(a: Limits, b: Limits, c: Limits)
    ensures a.reasons + b.reasons + c.reasons == b.reasons + c.reasons + a.reasons
    ensures Max(Max(a.min, b.min), c.min) == Max(Max(b.min, c.min), a.min)
    ensures Min(Min(a.max, b.max), c.max) == Min(Min(b.max, c.max), a.max)
  {
  }

  lemma CombineWithCommutes(a: Limits, b: Limits, l: nat)
    requires l > 0
    ensures CombineWith(a, b, l) == CombineWith(b, a, l)
  {
    assert a.reasons + b.reasons == b.reasons + a.reasons;
  }

  /** Whatever the grouping: round once with all block sizes, mark once. */
  lemma CombineWithAssociates(a: Limits, b: Limits, c: Limits, ab: nat, bc: nat, l: nat)
    requires ab > 0 && bc > 0 && l > 0 && IsMultiple(l, ab) && IsMultiple(l, bc)
    ensures CombineWith(CombineWith(a, b, ab), c, l) == CombineWith(a, CombineWith(b, c, bc), l)
  {
    CombineThreeWith(a, b, c, ab, l);
    CombineThreeWith(b, c, a, bc, l);
    CombineWithCommutes(a, CombineWith(b, c, bc), l);
    Regroup(a, b, c);
  }

  lemma CombineAssociates(a: Limits, b: Limits, c: Limits)
    requires a.block > 0 && b.block > 0 && c.block > 0
    ensures Combined(Combined(a, b), c) == Combined(a, Combined(b, c))
  {
    LcmAssociates(a.block, b.block, c.block);
    CombineWithAssociates(a, b, c, Lcm(a.block, b.block), Lcm(b.block, c.block), Lcm(Lcm(a.block, b.block), c.block));
  }

  // ----- the code's steps, in 64-bit arithmetic

  /** The rounding up the code does. Operands are below 2^64, so the sum wraps around at most once. */
  function RoundUp64(i: nat, m: nat): (r: nat)
    requires m > 0
  {
    var r := RoundUp(i, m);
    if r < TWO_64 then r else r - TWO_64
  }

  /** One call of check; the block size is not zero. */
  function Check64(x: Limits): Limits
    requires x.block > 0
  {
    Flagged(x.ok, x.reasons, RoundUp64(x.min, x.block), RoundDown(x.max, x.block), x.block)
  }

  function Lcm64(a: nat, b: nat): nat {
    if a == 0 || b == 0 then 0 else if Lcm(a, b) < TWO_64 then Lcm(a, b) else Lcm(a, b) % TWO_64
  }

  function MinStep(a: Limits, extra: nat): Limits
    requires a.block > 0
  {
    Check64(a.(min := Max(a.min, extra)))
  }

  function MaxStep(a: Limits, extra: nat): Limits
    requires a.block > 0
  {
    Check64(a.(max := Min(a.max, extra)))
  }

  /** The sequence of steps in combine, each ending with a check, for the block size l that results. */
  function StepsWith(a: Limits, b: Limits, l: nat): Limits
    requires a.block > 0 && l > 0
  {
    var s0 := a.(ok := a.ok && b.ok, reasons := a.reasons + b.reasons);
    var s2 := MaxStep(MinStep(s0, b.min), b.max);
    Check64(Check64(s2.(block := l)))
  }

  lemma StepsInOrder(a: Limits, b: Limits, l: nat)
    requires a.block > 0 && l > 0
    ensures StepsWith(a, b, l) ==
      var s0 := a.(ok := a.ok && b.ok, reasons := a.reasons + b.reasons);
      Check64(Check64(MaxStep(MinStep(s0, b.min), b.max).(block := l)))
  {
  }

  /** The least common multiple fits and the rounded minimum does not wrap around. */
  predicate Fits(a: Limits, b: Limits)
    requires a.block > 0 && b.block > 0
  {
    var l := Lcm(a.block, b.block);
    l < TWO_64 && RoundUp(Max(a.min, b.min), l) < TWO_64
  }

  /** The minimum through the four checks. */
  lemma MinTrack(x: nat, b: nat, l: nat)
    requires b > 0 && l > 0 && IsMultiple(l, b) && RoundUp(x, l) < TWO_64
    ensures RoundUp64(x, b) == RoundUp(x, b) <= RoundUp(x, l)
    ensures RoundUp64(RoundUp(x, b), b) == RoundUp(x, b)
    ensures RoundUp64(RoundUp(x, b), l) == RoundUp(x, l)
    ensures RoundUp64(RoundUp(x, l), l) == RoundUp(x, l)
  {
    MultipleTrans(RoundUp(x, l), b, l);
    LeastAbove(x, b, RoundUp(x, l));
    LeastAbove(RoundUp(x, b), b, RoundUp(x, b));
    RoundUpTwice(x, 0, b, l);
    LeastAbove(RoundUp(x, l), l, RoundUp(x, l));
  }

  /** The maximum through the four checks. */
  lemma MaxTrack(max: nat, extra: nat, b: nat, l: nat)
    requires b > 0 && l > 0 && IsMultiple(l, b)
    ensures var y := Min(max, extra);
      && RoundDown(Min(RoundDown(max, b), extra), b) == RoundDown(y, b) <= RoundDown(max, b)
      && RoundDown(y, l) <= RoundDown(y, b)
      && RoundDown(RoundDown(y, b), l) == RoundDown(RoundDown(y, l), l) == RoundDown(y, l)
  {
    var y := Min(max, extra);
    FirstMax(max, extra, b);
    RoundDownTwice(y, y, b, l);
    GreatestBelow(RoundDown(y, l), l, RoundDown(y, l));
  }

  /** Rounding the maximum before taking in the other one makes no difference. */
  lemma FirstMax(max: nat, extra: nat, b: nat)
    requires b > 0
    ensures RoundDown(Min(RoundDown(max, b), extra), b) == RoundDown(Min(max, extra), b) <= RoundDown(max, b)
  {
    assert IsMultiple(b, b) by { assert IsMultiple(0, b); }
    RoundDownTwice(max, extra, b, b);
  }

  /** The four checks, given what the roundings come to. */
  lemma StepsAre(a: Limits, b: Limits, l: nat, m1: nat, m2: nat, m3: nat, m4: nat, x0: nat, x1: nat, x2: nat)
    requires a.block > 0 && l > 0
    requires RoundUp64(Max(a.min, b.min), a.block) == m1 && RoundUp64(m1, a.block) == m2
    requires RoundUp64(m2, l) == m3 && RoundUp64(m3, l) == m4
    requires RoundDown(a.max, a.block) == x0 && RoundDown(Min(x0, b.max), a.block) == x1
    requires RoundDown(x1, l) == x2 && RoundDown(x2, l) == x2
    ensures var s1 := Flagged(a.ok && b.ok, a.reasons + b.reasons, m1, x0, a.block);
      var s2 := Flagged(s1.ok, s1.reasons, m2, x1, a.block);
      var s3 := Flagged(s2.ok, s2.reasons, m3, x2, l);
      StepsWith(a, b, l) == Flagged(s3.ok, s3.reasons, m4, x2, l)
  {
    var s1 := Flagged(a.ok && b.ok, a.reasons + b.reasons, m1, x0, a.block);
    var s2 := Flagged(s1.ok, s1.reasons, m2, x1, a.block);
    var s3 := Flagged(s2.ok, s2.reasons, m3, x2, l);
    CheckIs(a.ok && b.ok, a.reasons + b.reasons, Max(a.min, b.min), a.max, a.block, m1, x0);
    CheckIs(s1.ok, s1.reasons, m1, Min(x0, b.max), a.block, m2, x1);
    CheckIs(s2.ok, s2.reasons, m2, x1, l, m3, x2);
    CheckIs(s3.ok, s3.reasons, m3, x2, l, m4, x2);
  }

  lemma CheckIs(ok: bool, reasons: set<nat>, min: nat, max: nat, block: nat, m: nat, x: nat)
    requires block > 0 && RoundUp64(min, block) == m && RoundDown(max, block) == x
    ensures Check64(Limits(ok, reasons, min, max, block)) == Flagged(ok, reasons, m, x, block)
  {
  }

  lemma StepsAreCombineWith(a: Limits, b: Limits, l: nat)
    requires a.InRange() && l > 0 && IsMultiple(l, a.block) && RoundUp(Max(a.min, b.min), l) < TWO_64
    ensures StepsWith(a, b, l) == CombineWith(a, b, l)
  {
    var x, y := Max(a.min, b.min), Min(a.max, b.max);
    MinTrack(x, a.block, l);
    MaxTrack(a.max, b.max, a.block, l);
    var m1, m2 := RoundUp(x, a.block), RoundUp(x, l);
    var x0, x1, x2 := RoundDown(a.max, a.block), RoundDown(y, a.block), RoundDown(y, l);
    StepsAre(a, b, l, m1, m1, m2, m2, x0, x1, x2);
    NarrowingFlags(a.ok && b.ok, a.reasons + b.reasons, a.block, l, m1, m2, x0, x1, x2);
  }

  lemma NarrowingFlags(ok: bool, reasons: set<nat>, block: nat, block': nat, m1: nat, m2: nat, x0: nat, x1: nat,
                       x2: nat)
    requires m1 <= m2 && x2 <= x1 <= x0
    ensures var s1 := Flagged(ok, reasons, m1, x0, block);
      var s2 := Flagged(s1.ok, s1.reasons, m1, x1, block);
      var s3 := Flagged(s2.ok, s2.reasons, m2, x2, block');
      Flagged(s3.ok, s3.reasons, m2, x2, block') == Flagged(ok, reasons, m2, x2, block')
  {
    assert reasons + {MIN_MAX_ERROR} + {MIN_MAX_ERROR} == reasons + {MIN_MAX_ERROR};
  }

  /** If everything fits, all the intermediate rounding and marking amounts to combining over the naturals. */
  lemma StepsAreCombine(a: Limits, b: Limits)
    requires a.InRange() && b.InRange() && Fits(a, b)
    ensures StepsWith(a, b, Lcm64(a.block, b.block)) == Combined(a, b)
  {
    StepsAreCombineWith(a, b, Lcm(a.block, b.block));
  }

  /** What rounding up in 64 bits does: the least multiple that is not below, minus 2^64 if it is too large. */
  ghost predicate IsRoundedUp64(r: nat, i: nat, m: nat)
    requires m > 0
  {
    exists up: nat :: IsMultiple(up, m) && i <= up < i + m && r == if up < TWO_64 then up else up - TWO_64
  }

  ghost predicate IsRoundedDown(r: nat, i: nat, m: nat)
    requires m > 0
  {
    IsMultiple(r, m) && r <= i < r + m
  }

  /** r are the limits with these fields, rounded and marked. */
  ghost predicate IsChecked(r: Limits, ok: bool, reasons: set<nat>, min: nat, max: nat, block: nat)
    requires block > 0
  {
    && IsMarked(r, ok, reasons, r.min >= r.max) && r.block == block
    && IsRoundedUp64(r.min, min, block) && IsRoundedDown(r.max, max, block)
  }

  /** What check does to each field. */
  lemma CheckMeans(x: Limits)
    requires x.block > 0
    ensures IsChecked(Check64(x), x.ok, x.reasons, x.min, x.max, x.block)
  {
    assert IsMultiple(RoundUp(x.min, x.block), x.block);
  }

  /** One more check of limits that may be marked already. */
  lemma MarkedAgain(x: Limits, ok: bool, reasons: set<nat>, nothingLeft: bool)
    requires x.block > 0 && IsMarked(x, ok, reasons, nothingLeft)
    ensures var r := Check64(x); IsMarked(r, ok, reasons, nothingLeft || r.min >= r.max)
  {
  }

  /**
   * What combining in 64 bits does to the flag and the reasons: the common ones of both sides, marked exactly if one
   * of the four checks leaves nothing, the last one included.
   */
  lemma StepsMean(a: Limits, b: Limits, l: nat)
    requires a.block > 0 && l > 0
    ensures var r := StepsWith(a, b, l);
      var s1 := MinStep(a.(ok := a.ok && b.ok, reasons := a.reasons + b.reasons), b.min);
      var s2 := MaxStep(s1, b.max);
      var s3 := Check64(s2.(block := l));
      && r.block == l
      && IsMarked(r, a.ok && b.ok, a.reasons + b.reasons,
                  s1.min >= s1.max || s2.min >= s2.max || s3.min >= s3.max || r.min >= r.max)
  {
    var ok, reasons, r := a.ok && b.ok, a.reasons + b.reasons, StepsWith(a, b, l);
    var s1 := MinStep(a.(ok := ok, reasons := reasons), b.min);
    var s2 := MaxStep(s1, b.max);
    var s3 := Check64(s2.(block := l));
    StepsInOrder(a, b, l);
    var one := s1.min >= s1.max;
    var two := one || s2.min >= s2.max;
    var three := two || s3.min >= s3.max;
    MarkedAgain(a.(ok := ok, reasons := reasons, min := Max(a.min, b.min)), ok, reasons, false);
    MarkedAgain(s1.(max := Min(s1.max, b.max)), ok, reasons, one);
    MarkedAgain(s2.(block := l), ok, reasons, two);
    MarkedAgain(s3, ok, reasons, three);
  }

  // ----- when the rounded minimum wraps around

  /** Below one block, rounding up gives zero or the block. */
  lemma RoundUpSmall(i: nat, m: nat)
    requires 0 < m && i <= m
    ensures RoundUp(i, m) == if i == 0 then 0 else m
  {
    if i == m {
      assert RoundUp(0, m) == 0;
    }
  }

  /** The block size whose rounding is the first to wrap around. */
  function WrappingBlock(x: nat, b: nat, l: nat): nat
    requires b > 0
  {
    if RoundUp(x, b) < TWO_64 then l else b
  }

  /** The minimum after the four checks once it has wrapped: zero or one block. */
  lemma WrappedMin(x: nat, b: nat, l: nat)
    requires 0 < b <= l < TWO_64 && x < TWO_64 && IsMultiple(l, b) && RoundUp(x, l) >= TWO_64
    ensures var m1 := RoundUp64(x, b);
      var m2 := RoundUp64(m1, b);
      var m3 := RoundUp64(m2, l);
      RoundUp64(m3, l) == if RoundUp(x, WrappingBlock(x, b, l)) == TWO_64 then 0 else l
  {
    if RoundUp(x, b) < TWO_64 {
      WrapsAtCommonBlock(x, b, l);
    } else {
      WrapsAtOwnBlock(x, b, l);
    }
  }

  lemma WrapsAtCommonBlock(x: nat, b: nat, l: nat)
    requires 0 < b <= l < TWO_64 && x < TWO_64 && IsMultiple(l, b) && RoundUp(x, b) < TWO_64 <= RoundUp(x, l)
    ensures RoundUp64(RoundUp64(x, b), b) == RoundUp(x, b)
    ensures RoundUp64(RoundUp(x, b), l) == RoundUp(x, l) - TWO_64
    ensures RoundUp64(RoundUp(x, l) - TWO_64, l) == if RoundUp(x, l) == TWO_64 then 0 else l
  {
    LeastAbove(RoundUp(x, b), b, RoundUp(x, b));
    RoundUpTwice(x, 0, b, l);
    RoundUpSmall(RoundUp(x, l) - TWO_64, l);
  }

  lemma WrapsAtOwnBlock(x: nat, b: nat, l: nat)
    requires 0 < b <= l < TWO_64 && x < TWO_64 <= RoundUp(x, b)
    ensures RoundUp64(x, b) == RoundUp(x, b) - TWO_64
    ensures var m2 := if RoundUp(x, b) == TWO_64 then 0 else b;
      && RoundUp64(RoundUp64(x, b), b) == m2
      && RoundUp64(RoundUp64(m2, l), l) == if RoundUp(x, b) == TWO_64 then 0 else l
  {
    var m2 := if RoundUp(x, b) == TWO_64 then 0 else b;
    RoundUpSmall(RoundUp(x, b) - TWO_64, b);
    RoundUpSmall(m2, l);
    RoundUpSmall(if m2 == 0 then 0 else l, l);
  }

  lemma ReachesExactly(x: nat, w: nat)
    requires w > 0 && x < TWO_64 <= RoundUp(x, w)
    ensures RoundUp(x, w) == TWO_64 <==> IsMultiple(TWO_64, w)
  {
    if IsMultiple(TWO_64, w) {
      LeastAbove(x, w, TWO_64);
    }
  }

  /** The code's combined limits admit exactly what both sides admit. */
  ghost predicate IsExact(a: Limits, b: Limits, l: nat)
    requires a.block > 0 && l > 0
  {
    forall n: nat :: StepsWith(a, b, l).Admits(n) <==> a.Admits(n) && b.Admits(n)
  }

  lemma WrappedLimits(a: Limits, b: Limits, l: nat)
    requires a.InRange() && b.InRange() && a.block <= l < TWO_64 && IsMultiple(l, a.block)
    requires RoundUp(Max(a.min, b.min), l) >= TWO_64
    ensures StepsWith(a, b, l).block == l
    ensures StepsWith(a, b, l).max == RoundDown(Min(a.max, b.max), l)
    ensures StepsWith(a, b, l).min ==
      if RoundUp(Max(a.min, b.min), WrappingBlock(Max(a.min, b.min), a.block, l)) == TWO_64 then 0 else l
  {
    var x, y := Max(a.min, b.min), Min(a.max, b.max);
    WrappedMin(x, a.block, l);
    MaxTrack(a.max, b.max, a.block, l);
    var m1 := RoundUp64(x, a.block);
    var m2 := RoundUp64(m1, a.block);
    var m3 := RoundUp64(m2, l);
    StepsAre(a, b, l, m1, m2, m3, RoundUp64(m3, l), RoundDown(a.max, a.block), RoundDown(y, a.block), RoundDown(y, l));
  }

  lemma NothingAdmitted(a: Limits, b: Limits, l: nat, n: nat)
    requires a.InRange() && b.InRange() && l > 0 && RoundUp(Max(a.min, b.min), l) >= TWO_64
    requires IsMultiple(n, l) <==> IsMultiple(n, a.block) && IsMultiple(n, b.block)
    ensures !(a.Admits(n) && b.Admits(n))
  {
    if IsMultiple(n, l) {
      LeastAbove(Max(a.min, b.min), l, n);
    }
  }

  /**
   * When combine is exact, for all limits.  If the common block size fits: exactly if the rounded minimum does
   * not wrap around, or it wraps to a full block that the maximum does not reach.  If the common block size
   * itself wraps around, no size but zero is common: exactly if zero is all that is left, or nothing.
   */
  lemma ExactlyWhen(a: Limits, b: Limits)
    requires a.InRange() && b.InRange()
    ensures var l := Lcm64(a.block, b.block);
      var x, y := Max(a.min, b.min), Min(a.max, b.max);
      && l > 0
      && (IsExact(a, b, l) <==>
        if Lcm(a.block, b.block) < TWO_64
        then RoundUp(x, l) < TWO_64 || (!IsMultiple(TWO_64, WrappingBlock(x, a.block, l)) && y < l)
        else if x == 0 then RoundDown(y, a.block) < l
        else Settled(Settled(x, a.block), l) > RoundDown(y, a.block))
  {
    CombineNeverThrows(a, b);
    if Lcm(a.block, b.block) < TWO_64 {
      ExactlyWhenFits(a, b);
    } else {
      ExactlyWhenBlockWraps(a, b);
    }
  }

  lemma ExactlyWhenFits(a: Limits, b: Limits)
    requires a.InRange() && b.InRange() && Lcm(a.block, b.block) < TWO_64
    ensures var l := Lcm(a.block, b.block);
      var x, y := Max(a.min, b.min), Min(a.max, b.max);
      IsExact(a, b, l) <==>
        RoundUp(x, l) < TWO_64 || (!IsMultiple(TWO_64, WrappingBlock(x, a.block, l)) && y < l)
  {
    var l := Lcm(a.block, b.block);
    forall n: nat ensures IsMultiple(n, l) <==> IsMultiple(n, a.block) && IsMultiple(n, b.block) {
      LcmDivides(a.block, b.block, n);
    }
    if RoundUp(Max(a.min, b.min), l) < TWO_64 {
      StepsAreCombine(a, b);
      forall n: nat ensures StepsWith(a, b, l).Admits(n) <==> a.Admits(n) && b.Admits(n) {
        CombineIsIntersection(a, b, n);
      }
    } else {
      ExactlyWhenWrapped(a, b, l);
    }
  }

  lemma ExactlyWhenBlockWraps(a: Limits, b: Limits)
    requires a.InRange() && b.InRange() && Lcm(a.block, b.block) >= TWO_64 && Lcm64(a.block, b.block) > 0
    ensures var l := Lcm64(a.block, b.block);
      var x, y := Max(a.min, b.min), RoundDown(Min(a.max, b.max), a.block);
      IsExact(a, b, l) <==> if x == 0 then y < l else Settled(Settled(x, a.block), l) > y
  {
    var l, x, y := Lcm64(a.block, b.block), Max(a.min, b.min), RoundDown(Min(a.max, b.max), a.block);
    var r := StepsWith(a, b, l);
    StepsLimits(a, b, l);
    AdmitsFrom(r, y);
    forall n: nat ensures a.Admits(n) && b.Admits(n) <==> n == 0 && x == 0 {
      OnlyZeroIsCommon(a, b, n);
    }
    if x == 0 {
      RoundUpSmall(0, a.block);
      RoundUpSmall(0, l);
      assert r.Admits(0);
      assert y >= l ==> r.Admits(l);
    }
  }

  /** No size but zero is a multiple of both block sizes if their common multiple does not fit. */
  lemma OnlyZeroIsCommon(a: Limits, b: Limits, n: nat)
    requires a.InRange() && b.InRange() && Lcm(a.block, b.block) >= TWO_64
    ensures a.Admits(n) && b.Admits(n) <==> n == 0 && Max(a.min, b.min) == 0
  {
    if a.Admits(n) && b.Admits(n) && n > 0 {
      LcmLeast(a.block, b.block, n);
    }
  }

  /** The limits after the four checks, whatever the block size has become. */
  lemma StepsLimits(a: Limits, b: Limits, l: nat)
    requires a.InRange() && b.InRange() && 0 < l < TWO_64
    ensures var r, y := StepsWith(a, b, l), RoundDown(Min(a.max, b.max), a.block);
      && r.block == l && r.min == Settled(Settled(Max(a.min, b.min), a.block), l)
      && r.max == RoundDown(y, l) && RoundUp(r.min, l) == r.min
  {
    var x, y := Max(a.min, b.min), RoundDown(Min(a.max, b.max), a.block);
    var m1 := RoundUp64(x, a.block);
    Settles(x, a.block);
    var m2 := RoundUp64(m1, a.block);
    var m3 := RoundUp64(m2, l);
    Settles(m2, l);
    FirstMax(a.max, b.max, a.block);
    GreatestBelow(RoundDown(y, l), l, RoundDown(y, l));
    StepsAre(a, b, l, m1, m2, m3, RoundUp64(m3, l), RoundDown(a.max, a.block), y, RoundDown(y, l));
  }

  /** Whatever the operands, combining gives limits that have been through check; so does everything built on it. */
  lemma CombineGivesChecked(a: Limits, b: Limits)
    requires a.InRange() && b.InRange()
    ensures 0 < Lcm64(a.block, b.block) < TWO_64 && StepsWith(a, b, Lcm64(a.block, b.block)).Checked()
  {
    var l := Lcm64(a.block, b.block);
    CombineNeverThrows(a, b);
    StepsLimits(a, b, l);
    LastStepFlags(a, b, l);
  }

  lemma LastStepFlags(a: Limits, b: Limits, l: nat)
    requires a.block > 0 && l > 0
    ensures var r := StepsWith(a, b, l); r.min >= r.max ==> !r.ok && MIN_MAX_ERROR in r.reasons
  {
  }

  /**
   * After a shift: limits that have been through check, unless the rounded minimum wraps around to something that
   * is not a multiple.  Combining goes on from there all the same.
   */
  lemma ShiftGivesChecked(a: Limits, offset: nat)
    requires a.InRange()
    ensures ShiftSteps(a, offset).InRange()
    ensures ShiftSteps(a, offset).Checked() <==>
      RoundUp(Saturated(a.min + offset), a.block) < TWO_64 || IsMultiple(TWO_64, a.block)
  {
    var x := Saturated(a.min + offset);
    if RoundUp(x, a.block) >= TWO_64 {
      ReachesExactly(x, a.block);
      RoundUpSmall(RoundUp(x, a.block) - TWO_64, a.block);
      SmallMultiple(RoundUp(x, a.block) - TWO_64, a.block);
    }
  }

  lemma SmallMultiple(n: nat, m: nat)
    requires n < m
    ensures IsMultiple(n, m) <==> n == 0
  {
  }

  /** What limits with a rounded minimum and a maximum rounded down from y admit. */
  lemma AdmitsFrom(r: Limits, y: nat)
    requires r.block > 0 && RoundUp(r.min, r.block) == r.min && r.max == RoundDown(y, r.block)
    ensures forall n: nat :: r.Admits(n) <==> IsMultiple(n, r.block) && r.min <= n <= y
    ensures (forall n: nat :: !r.Admits(n)) <==> r.min > y
  {
    forall n: nat ensures r.Admits(n) <==> IsMultiple(n, r.block) && r.min <= n <= y {
      if IsMultiple(n, r.block) {
        GreatestBelow(y, r.block, n);
      }
    }
    if r.min <= y {
      assert r.Admits(r.min);
    }
  }

  // ----- the common block size is never zero

  predicate IsPowerOfTwo(t: nat) {
    t == 1 || (t > 0 && t % 2 == 0 && IsPowerOfTwo(t / 2))
  }

  /** An odd cofactor contributes nothing to a power of two. */
  lemma {:induction false} OddCofactor(t: nat, a: nat, j: nat, q: nat)
    requires IsPowerOfTwo(t) && a > 0 && a * (2 * j + 1) == t * q
    ensures a >= t
    decreases t
  {
    if t > 1 {
      var h := t / 2;
      assert t * q == 2 * (h * q);
      assert a * (2 * j + 1) == 2 * (a * j) + a;
      var c := h * q - a * j;
      assert a == 2 * c;
      assert c * (2 * j + 1) == h * q by {
        assert 2 * (c * (2 * j + 1)) == a * (2 * j + 1);
      }
      OddCofactor(h, c, j, q);
    }
  }

  lemma PowerDoubles(h: nat)
    requires IsPowerOfTwo(h)
    ensures IsPowerOfTwo(2 * h)
  {
  }

  lemma {:induction false} PowerProduct(t: nat, u: nat)
    requires IsPowerOfTwo(t) && IsPowerOfTwo(u)
    ensures IsPowerOfTwo(t * u)
  {
    if t > 1 {
      var h := t / 2;
      PowerProduct(h, u);
      PowerDoubles(h * u);
      assert t * u == 2 * (h * u);
    }
  }

  lemma PowerHolds()
    ensures IsPowerOfTwo(TWO_64)
  {
    assert IsPowerOfTwo(2);
    PowerProduct(2, 2);
    PowerProduct(4, 4);
    PowerProduct(0x10, 0x10);
    PowerProduct(0x100, 0x100);
    PowerProduct(0x1_0000, 0x1_0000);
    PowerProduct(0x1_0000_0000, 0x1_0000_0000);
  }

  /** Half of a common multiple that 2^64 divides is still a multiple of a smaller number. */
  lemma HalfIsMultiple(n: nat, a: nat)
    requires 0 < a < TWO_64 && IsMultiple(n, a) && n % TWO_64 == 0
    ensures IsMultiple(n / 2, a)
  {
    RoundingByRemainder(n, a);
    HalfOfProduct(n, a, n / a, n / TWO_64);
  }

  lemma HalfOfProduct(n: nat, a: nat, k: nat, q: nat)
    requires 0 < a < TWO_64 && n == a * k && n == TWO_64 * q
    ensures IsMultiple(n / 2, a)
  {
    var j := k / 2;
    if k % 2 == 0 {
      assert n == 2 * (a * j);
      ProductIsMultiple(j, a);
    } else {
      PowerHolds();
      OddCofactor(TWO_64, a, j, q);
    }
  }

  /** The block size never becomes zero, so combining never throws. */
  lemma CombineNeverThrows(a: Limits, b: Limits)
    requires a.InRange() && b.InRange()
    ensures 0 < Lcm64(a.block, b.block) < TWO_64
  {
    var l := Lcm(a.block, b.block);
    if l % TWO_64 == 0 {
      HalfIsMultiple(l, a.block);
      HalfIsMultiple(l, b.block);
      LcmLeast(a.block, b.block, l / 2);
    }
  }

  lemma ExactlyWhenWrapped(a: Limits, b: Limits, l: nat)
    requires a.InRange() && b.InRange() && 0 < l < TWO_64 && RoundUp(Max(a.min, b.min), l) >= TWO_64
    requires forall n: nat :: IsMultiple(n, l) <==> IsMultiple(n, a.block) && IsMultiple(n, b.block)
    ensures IsExact(a, b, l) <==>
      !IsMultiple(TWO_64, WrappingBlock(Max(a.min, b.min), a.block, l)) && Min(a.max, b.max) < l
  {
    var x, y := Max(a.min, b.min), Min(a.max, b.max);
    assert IsMultiple(0, l) && IsMultiple(l, l);
    MultiplesApart(0, l, a.block);
    WrappedLimits(a, b, l);
    ReachesExactly(x, WrappingBlock(x, a.block, l));
    GreatestBelow(y, l, l);
    var r := StepsWith(a, b, l);
    forall n: nat ensures !(a.Admits(n) && b.Admits(n)) {
      NothingAdmitted(a, b, l, n);
    }
    if r.min <= r.max {
      assert r.Admits(r.min);
    }
  }

  /**
   * Block sizes of 512 and 1000 bytes, a minimum close to 2^64: the rounded minimum wraps around unnoticed,
   * and the result claims to be usable although it admits sizes far below what the first side allows.
   */
  lemma WrapExample()
    ensures var a := Limits(true, {}, TWO_64 - 2048, TWO_64 - 512, 512);
      var b := Limits(true, {}, 0, TWO_64 - 616, 1000);
      && a.Checked() && b.Checked() && Lcm(512, 1000) == 64000
      && StepsWith(a, b, 64000) == Limits(true, {}, 64000, TWO_64 - 47616, 64000)
      && StepsWith(a, b, 64000).Admits(64000) && !a.Admits(64000)
  {
    var a := Limits(true, {}, TWO_64 - 2048, TWO_64 - 512, 512);
    var b := Limits(true, {}, 0, TWO_64 - 616, 1000);
    WrapOperands();
    LcmExample();
    WrapMinima();
    WrapMaxima();
    StepsAre(a, b, 64000, TWO_64 - 2048, TWO_64 - 2048, 16384, 64000, TWO_64 - 512, TWO_64 - 1024, TWO_64 - 47616);
  }

  lemma WrapOperands()
    ensures Limits(true, {}, TWO_64 - 2048, TWO_64 - 512, 512).Checked()
    ensures Limits(true, {}, 0, TWO_64 - 616, 1000).Checked()
    ensures IsMultiple(64000, 64000)
  {
    RoundingByRemainder(TWO_64 - 2048, 512);
    RoundingByRemainder(TWO_64 - 512, 512);
    RoundingByRemainder(0, 1000);
    RoundingByRemainder(TWO_64 - 616, 1000);
    RoundingByRemainder(64000, 64000);
  }

  lemma WrapMinima()
    ensures RoundUp64(TWO_64 - 2048, 512) == TWO_64 - 2048
    ensures RoundUp64(TWO_64 - 2048, 64000) == 16384 && RoundUp64(16384, 64000) == 64000
  {
    RoundingByRemainder(TWO_64 - 2048, 512);
    RoundingByRemainder(TWO_64 - 2048, 64000);
    RoundUpSmall(16384, 64000);
  }

  lemma WrapMaxima()
    ensures RoundDown(TWO_64 - 512, 512) == TWO_64 - 512 && RoundDown(TWO_64 - 616, 512) == TWO_64 - 1024
    ensures RoundDown(TWO_64 - 1024, 64000) == TWO_64 - 47616 == RoundDown(TWO_64 - 47616, 64000)
  {
    RoundingByRemainder(TWO_64 - 512, 512);
    RoundingByRemainder(TWO_64 - 616, 512);
    RoundingByRemainder(TWO_64 - 1024, 64000);
    RoundingByRemainder(TWO_64 - 47616, 64000);
  }

  lemma NoSmallerCommon(p: nat, q: nat)
    requires 512 * p == 1000 * q && p > 0
    ensures 512 * p >= 64000
  {
    assert 64 * p == 125 * q;
    assert q == 64 * (21 * p - 41 * q);
  }

  lemma LcmExample()
    ensures Lcm(512, 1000) == 64000
  {
    RoundingByRemainder(64000, 512);
    RoundingByRemainder(64000, 1000);
    LcmLeast(512, 1000, 64000);
    CommonIsLarge(Lcm(512, 1000));
  }

  lemma CommonIsLarge(l: nat)
    requires CommonMultiple(l, 512, 1000)
    ensures l >= 64000
  {
    RoundingByRemainder(l, 512);
    RoundingByRemainder(l, 1000);
    NoSmallerCommon(l / 512, l / 1000);
  }

  // ----- shifting

  function Saturated(i: nat): nat {
    if i < TWO_64 then i else TWO_64 - 1
  }

  function ShiftSteps(a: Limits, offset: nat): Limits
    requires a.block > 0
  {
    Check64(a.(min := Saturated(a.min + offset), max := Saturated(a.max + offset)))
  }

  /**
   * What a shift does to each field.  The limits are usable afterwards if and only if they were and the new minimum is
   * below the new maximum; the reasons are the old ones, and the error exactly if it is not; the ends are the saturated
   * sums, rounded.
   */
  lemma ShiftMeans(a: Limits, offset: nat)
    requires a.block > 0
    ensures IsChecked(ShiftSteps(a, offset), a.ok, a.reasons,
                      if a.min + offset < TWO_64 then a.min + offset else TWO_64 - 1,
                      if a.max + offset < TWO_64 then a.max + offset else TWO_64 - 1, a.block)
  {
    var x := Limits(a.ok, a.reasons, Saturated(a.min + offset), Saturated(a.max + offset), a.block);
    assert ShiftSteps(a, offset) == Check64(x);
    CheckMeans(x);
  }

  /** The shifted limits admit exactly the representable multiples of the block size in the shifted range. */
  ghost predicate ShiftIsExact(a: Limits, offset: nat)
    requires a.block > 0
  {
    forall n: nat {:trigger ShiftSteps(a, offset).Admits(n)} :: n < TWO_64 ==>
      (ShiftSteps(a, offset).Admits(n) <==> IsMultiple(n, a.block) && a.min + offset <= n <= a.max + offset)
  }

  /** Shifting limits that admit something is exact exactly if a multiple of the block size is left to start from. */
  lemma ShiftExactlyWhen(a: Limits, offset: nat)
    requires a.InRange() && a.min <= a.max
    ensures ShiftIsExact(a, offset) <==> a.min + offset <= RoundDown(TWO_64 - 1, a.block)
  {
    if a.min + offset <= RoundDown(TWO_64 - 1, a.block) {
      ShiftFits(a, offset);
    } else {
      ShiftOverflows(a, offset);
      SettlesBelow(a.min + offset, a.max + offset, a.block);
    }
  }

  lemma SettlesBelow(low: nat, high: nat, w: nat)
    requires 0 < w < TWO_64 && RoundDown(TWO_64 - 1, w) < low <= high
    ensures RoundUp(RoundUp64(Saturated(low), w), w) <= Saturated(high)
  {
    SaturatedSettles(low, w);
    assert IsMultiple(w, w) by { assert IsMultiple(0, w); }
    GreatestBelow(TWO_64 - 1, w, w);
  }

  /**
   * Limits that admit nothing still admit nothing when shifted, unless the minimum saturates at or wraps around
   * to something that the maximum reaches.
   */
  lemma EmptyShiftExactlyWhen(a: Limits, offset: nat)
    requires a.InRange() && a.min > a.max
    ensures ShiftIsExact(a, offset) <==>
      a.min + offset <= RoundDown(TWO_64 - 1, a.block)
      || (if IsMultiple(TWO_64 - 1, a.block) then a.max + offset < TWO_64 - 1
          else !IsMultiple(TWO_64, a.block) && a.max + offset < a.block)
  {
    if a.min + offset <= RoundDown(TWO_64 - 1, a.block) {
      ShiftFits(a, offset);
    } else {
      ShiftOverflows(a, offset);
      SettlesAbove(a.min + offset, a.max + offset, a.block);
    }
  }

  lemma SettlesAbove(low: nat, high: nat, w: nat)
    requires 0 < w < TWO_64 && low > RoundDown(TWO_64 - 1, w)
    ensures RoundUp(RoundUp64(Saturated(low), w), w) > Saturated(high) <==>
      if IsMultiple(TWO_64 - 1, w) then high < TWO_64 - 1 else !IsMultiple(TWO_64, w) && high < w
  {
    SaturatedSettles(low, w);
  }

  /** Where a minimum above the last multiple ends up. */
  lemma SaturatedSettles(low: nat, w: nat)
    requires 0 < w < TWO_64 && low > RoundDown(TWO_64 - 1, w)
    ensures RoundUp(RoundUp64(Saturated(low), w), w) ==
      if IsMultiple(TWO_64 - 1, w) then TWO_64 - 1 else if IsMultiple(TWO_64, w) then 0 else w
    ensures IsMultiple(TWO_64 - 1, w) ==> low >= TWO_64
  {
    Settles(Saturated(low), w);
    GreatestBelow(TWO_64 - 1, w, RoundUp(Saturated(low), w));
    if IsMultiple(TWO_64 - 1, w) {
      GreatestBelow(TWO_64 - 1, w, TWO_64 - 1);
      LeastAbove(TWO_64 - 1, w, TWO_64 - 1);
    }
  }

  /** Where rounding up in 64 bits ends up, however often it is done. */
  function Settled(x: nat, w: nat): nat
    requires w > 0
  {
    if RoundUp(x, w) < TWO_64 then RoundUp(x, w) else if IsMultiple(TWO_64, w) then 0 else w
  }

  lemma Settles(x: nat, w: nat)
    requires 0 < w < TWO_64 && x < TWO_64
    ensures RoundUp(RoundUp64(x, w), w) == RoundUp64(RoundUp64(x, w), w) == Settled(x, w) < TWO_64
    ensures RoundUp(Settled(x, w), w) == Settled(x, w)
  {
    if RoundUp(x, w) < TWO_64 {
      LeastAbove(RoundUp(x, w), w, RoundUp(x, w));
    } else {
      ReachesExactly(x, w);
      RoundUpSmall(RoundUp(x, w) - TWO_64, w);
      RoundUpSmall(w, w);
    }
  }

  lemma ShiftFits(a: Limits, offset: nat)
    requires a.InRange() && a.min + offset <= RoundDown(TWO_64 - 1, a.block)
    ensures ShiftIsExact(a, offset)
  {
    var low, s := a.min + offset, Saturated(a.max + offset);
    LeastAbove(low, a.block, RoundDown(TWO_64 - 1, a.block));
    var r := ShiftSteps(a, offset);
    assert r.block == a.block && r.min == RoundUp(low, a.block) && r.max == RoundDown(s, a.block);
    forall n: nat | n < TWO_64
      ensures r.Admits(n) <==> IsMultiple(n, a.block) && low <= n <= a.max + offset
    {
      AdmitsRounded(r, low, s, n);
    }
  }

  lemma AdmitsRounded(r: Limits, low: nat, s: nat, n: nat)
    requires r.block > 0 && r.min == RoundUp(low, r.block) && r.max == RoundDown(s, r.block)
    ensures r.Admits(n) <==> IsMultiple(n, r.block) && low <= n <= s
  {
    if IsMultiple(n, r.block) {
      LeastAbove(low, r.block, n);
      GreatestBelow(s, r.block, n);
    }
  }

  /** Limits whose maximum has been rounded down from s admit nothing exactly if the first candidate is above s. */
  lemma AdmitsNothing(r: Limits, s: nat)
    requires r.block > 0 && r.max == RoundDown(s, r.block)
    ensures (forall n: nat :: !r.Admits(n)) <==> RoundUp(r.min, r.block) > s
  {
    var low := RoundUp(r.min, r.block);
    GreatestBelow(s, r.block, low);
    if low <= s {
      assert r.Admits(low);
    }
    forall n: nat ensures r.Admits(n) ==> low <= n <= s {
      if IsMultiple(n, r.block) {
        LeastAbove(r.min, r.block, n);
      }
    }
  }

  lemma ShiftOverflows(a: Limits, offset: nat)
    requires a.InRange() && a.min + offset > RoundDown(TWO_64 - 1, a.block)
    ensures ShiftIsExact(a, offset) <==>
      RoundUp(RoundUp64(Saturated(a.min + offset), a.block), a.block) > Saturated(a.max + offset)
  {
    var r, s := ShiftSteps(a, offset), Saturated(a.max + offset);
    AdmitsNothing(r, s);
    forall n: nat | n < TWO_64 ensures !(IsMultiple(n, a.block) && a.min + offset <= n <= a.max + offset) {
      if IsMultiple(n, a.block) {
        GreatestBelow(TWO_64 - 1, a.block, n);
      }
    }
    assert forall n: nat :: r.Admits(n) ==> n < TWO_64;
  }

  // ----- the mutable object

  class ResizeInfo {

    var ok: bool
    var reasons: set<nat>
    var min: nat
    var max: nat
    var block: nat

    ghost function Value(): Limits
      reads this
    {
      Limits(ok, reasons, min, max, block)
    }

    /** Limits without a block size; usable only if there is something to resize to. */
    constructor (ok: bool, reasons: set<nat>, min: nat, max: nat)
      requires min < TWO_64 && max < TWO_64
      ensures Value() == Flagged(ok, reasons, min, max, 1) && Value().Checked()
    {
      this.ok, this.reasons, this.min, this.max, this.block := ok, reasons, min, max, 1;
      new;
      RoundingByRemainder(min, 1);
      RoundingByRemainder(max, 1);
      var _ := Check();
    }

    /** Throws when the block size is zero, before changing anything. */
    method Check() returns (thrown: bool)
      modifies this
      ensures thrown <==> old(block) == 0
      ensures Value() == if thrown then old(Value()) else Check64(old(Value()))
      ensures !thrown ==> IsMarked(Value(), old(ok), old(reasons), min >= max) && block == old(block)
    {
      if block == 0 {
        return true;
      }
      min := RoundUp64(min, block);
      max := RoundDown(max, block);
      if min >= max {
        ok := false;
        reasons := reasons + {MIN_MAX_ERROR};
      }
      thrown := false;
    }

    method CombineMin(extra: nat) returns (thrown: bool)
      modifies this
      ensures thrown <==> old(block) == 0
      ensures !thrown ==> Value() == MinStep(old(Value()), extra)
    {
      min := Max(min, extra);
      thrown := Check();
    }

    method CombineMax(extra: nat) returns (thrown: bool)
      modifies this
      ensures thrown <==> old(block) == 0
      ensures !thrown ==> Value() == MaxStep(old(Value()), extra)
    {
      max := Min(max, extra);
      thrown := Check();
    }

    method CombineBlockSize(extra: nat) returns (thrown: bool)
      modifies this
      ensures thrown <==> Lcm64(old(block), extra) == 0
      ensures !thrown ==> Value() == Check64(old(Value()).(block := Lcm64(old(block), extra)))
    {
      block := Lcm64(block, extra);
      thrown := Check();
    }

    /** Combines with further limits, step by step. */
    method Combine(extra: Limits) returns (thrown: bool)
      modifies this
      ensures thrown <==> old(block) == 0 || Lcm64(old(block), extra.block) == 0
      ensures !thrown ==> Value() == StepsWith(old(Value()), extra, Lcm64(old(block), extra.block))
    {
      ok := ok && extra.ok;
      reasons := reasons + extra.reasons;
      ghost var s0 := Value();
      thrown := CombineMin(extra.min);
      if thrown { return; }
      thrown := CombineMax(extra.max);
      if thrown { return; }
      assert Value() == MaxStep(MinStep(s0, extra.min), extra.max) && block == old(block);
      thrown := CombineBlockSize(extra.block);
      if thrown { return; }
      ghost var s3, l := Value(), Lcm64(old(block), extra.block);
      assert StepsWith(old(Value()), extra, l) == Check64(s3) by {
        StepsInOrder(old(Value()), extra, l);
        assert s0 == old(Value()).(ok := old(ok) && extra.ok, reasons := old(reasons) + extra.reasons);
      }
      thrown := Check();
    }

    method Shift(offset: nat) returns (thrown: bool)
      requires min < TWO_64 && max < TWO_64 && offset < TWO_64
      modifies this
      ensures thrown <==> old(block) == 0
      ensures !thrown ==> Value() == ShiftSteps(old(Value()), offset)
      ensures !thrown ==> IsMarked(Value(), old(ok), old(reasons), min >= max) && block == old(block)
    {
      min := Add64(min, offset);
      if min < offset {
        min := TWO_64 - 1;
      }
      max := Add64(max, offset);
      if max < offset {
        max := TWO_64 - 1;
      }
      ghost var shifted := Value();
      assert block > 0 ==> ShiftSteps(old(Value()), offset) == Check64(shifted);
      thrown := Check();
    }
  }

  /** Addition of unsigned 64-bit integers, which wraps around at most once. */
  function Add64(a: nat, b: nat): nat {
    if a + b < TWO_64 then a + b else a + b - TWO_64
  }
}
