/** The guarantees of pkg/cidr: losslessness, minimality, coarsening, bounded breadth. */
module Guarantees {
  import opened BitPaths
  import opened Collections
  import opened Density
  import opened Aggregation

  // --- coarsening -----------------------------------------------------------

  /** Every prefix eligible in the fine job is eligible in the coarse one. */
  ghost predicate Coarser(fine: Job, coarse: Job) {
    forall p :: fine.Eligible(p) ==> coarse.Eligible(p)
  }

  /** Lowering the threshold or maxPrefix, or adding inputs, only makes more nodes eligible. */
  lemma LooserIsCoarser(fine: Job, coarse: Job)
    requires fine.Valid() && coarse.Valid() && fine.width == coarse.width
    requires fine.inputs <= coarse.inputs
    requires coarse.threshold <= fine.threshold && coarse.maxPrefix <= fine.maxPrefix
    requires || fine.width <= 62 || fine.inputs == coarse.inputs || coarse.threshold > 0.0
             || |coarse.inputs| as real <= -coarse.threshold * SIGN_BIT as real
    ensures Coarser(fine, coarse)
  {
    forall p | fine.Eligible(p)
      ensures coarse.Eligible(p)
    {
      CountMonotone(fine.inputs, coarse.inputs, p);
      CountMonotone(fine.inputs, coarse.inputs, p + [false]);
      CountMonotone(fine.inputs, coarse.inputs, p + [true]);
      SubsetSize(Under(coarse.inputs, p), coarse.inputs);
      if |p| < fine.width {
        MergeTestMonotone(fine.width - |p|, Count(fine.inputs, p), Count(coarse.inputs, p),
                          fine.threshold, coarse.threshold);
      }
    }
  }

  /** Each fine output prefix lies inside exactly one coarse output prefix. */
  lemma CoarseningNests(fine: Job, coarse: Job, q: Path) returns (i: nat)
    requires Coarser(fine, coarse) && q in fine.Output()
    ensures i < |coarse.Output()| && Contains(coarse.Output()[i], q)
    ensures forall j | 0 <= j < |coarse.Output()| && Contains(coarse.Output()[j], q) :: j == i
  {
    OutputIsTopmost(fine, q);
    i := EligibleIsInside(coarse, q, 0);
  }

  /** ... so the covered addresses only grow, */
  lemma CoarseningCoversMore(fine: Job, coarse: Job, a: Path)
    requires Coarser(fine, coarse) && fine.Covered(a)
    ensures coarse.Covered(a)
  {
    var k :| 0 <= k < |fine.Output()| && Contains(fine.Output()[k], a);
    var i := CoarseningNests(fine, coarse, fine.Output()[k]);
    ContainsTransitive(coarse.Output()[i], fine.Output()[k], a);
  }

  /** ... and on the same inputs the number of prefixes never grows. */
  lemma CoarseningShrinksList(fine: Job, coarse: Job)
    requires fine.Valid() && coarse.Valid() && fine.inputs == coarse.inputs
    requires Coarser(fine, coarse)
    ensures |coarse.Output()| <= |fine.Output()|
  {
    var before, after := fine.Output(), coarse.Output();
    var members := Elems(before);
    OutputInOrder(coarse);
    forall i | 0 <= i < |after|
      ensures HasMember(after[i], members)
    {
      OutputBounds(coarse, after[i]);
      var a :| a in Under(coarse.inputs, after[i]);
      InputsCoveredOnce(fine, a);
      var k :| 0 <= k < |before| && Contains(before[k], a);
      Comparable(after[i], before[k], a);
      if |before[k]| < |after[i]| {
        var j := CoarseningNests(fine, coarse, before[k]);
        ContainsTransitive(after[j], before[k], a);
        InputsCoveredOnce(coarse, a);
      }
      assert before[k] in members;
    }
    DisjointNeedsMany(after, members);
    ElementsAtMostLength(before);
  }

  // --- where two inputs part ------------------------------------------------------

  ghost predicate PartAt(a: Path, b: Path, d: int) {
    0 <= d < |a| && d < |b| && a[..d] == b[..d] && a[d] != b[d]
  }

  /** Some two inputs first differ at a depth that may be merged and has at least 64 bits below. */
  ghost predicate PartsTooEarly(job: Job) {
    exists a, b, d | a in job.inputs && b in job.inputs && PartAt(a, b, d) ::
      Max(1, job.maxPrefix) <= d <= job.width - 64
  }

  lemma PartingInputs(job: Job, a: Path, b: Path, d: int)
    requires job.Valid() && a in job.inputs && b in job.inputs && PartAt(a, b, d)
    ensures d < job.width && job.Branches(a[..d]) && Count(job.inputs, a[..d]) > 0
  {
    var p := a[..d];
    var l, r := if a[d] then b else a, if a[d] then a else b;
    ChildContains(p, false, l);
    ChildContains(p, true, r);
    assert l in Under(job.inputs, p + [false]);
    assert r in Under(job.inputs, p + [true]);
    UnderSplit(job.width, job.inputs, p);
  }

  lemma BranchParts(job: Job, p: Path) returns (a: Path, b: Path)
    requires job.Valid() && |p| < job.width && job.Branches(p)
    ensures a in job.inputs && b in job.inputs && PartAt(a, b, |p|)
    ensures Contains(p, a) && Contains(p, b)
  {
    a :| a in Under(job.inputs, p + [false]);
    b :| b in Under(job.inputs, p + [true]);
    ChildContains(p, false, a);
    ChildContains(p, true, b);
  }

  // --- bounded breadth --------------------------------------------------------

  /** Number of addresses inside p. */
  function Breadth(width: nat, p: Path): nat {
    if |p| <= width then Pow2(width - |p|) else 0
  }

  /** Number of addresses covered by disjoint prefixes. */
  function Size(width: nat, ps: seq<Path>): nat {
    if ps == [] then 0 else Breadth(width, ps[0]) + Size(width, ps[1..])
  }

  lemma {:induction false} SizeConcat(width: nat, ps: seq<Path>, qs: seq<Path>)
    ensures Size(width, ps + qs) == Size(width, ps) + Size(width, qs)
  {
    if ps == [] {
      assert ps + qs == qs;
    } else {
      assert (ps + qs)[1..] == ps[1..] + qs;
      SizeConcat(width, ps[1..], qs);
    }
  }

  /** t times n, as repeated addition. */
  function Times(t: real, n: nat): real {
    if n == 0 then 0.0 else t + Times(t, n - 1)
  }

  lemma {:induction false} TimesIsProduct(t: real, n: nat)
    ensures Times(t, n) == t * n as real
  {
    if n > 0 {
      TimesIsProduct(t, n - 1);
      assert t * n as real == t + t * (n - 1) as real;
    }
  }

  lemma {:induction false} TimesSum(t: real, m: nat, n: nat)
    ensures Times(t, m + n) == Times(t, m) + Times(t, n)
  {
    if m > 0 {
      TimesSum(t, m - 1, n);
    }
  }

  lemma BudgetQuotient(t: real, n: nat, c: nat)
    requires t > 0.0 && Times(t, n) <= c as real
    ensures n as real <= c as real / t
  {
    TimesIsProduct(t, n);
    assert t * n as real == n as real * t;
    DivisionTest(c as real, t, n as real);
  }

  /** An eligible node holds its share of inputs, unless the shift overflows there. */
  lemma EligibleBudget(job: Job, p: Path)
    requires job.Valid() && 0.0 < job.threshold <= 1.0 && !PartsTooEarly(job)
    requires job.Eligible(p)
    ensures Times(job.threshold, Breadth(job.width, p)) <= Count(job.inputs, p) as real
  {
    var below := job.width - |p|;
    if below == 0 {
      UnderLeaf(job.width, job.inputs, p);
      assert Times(job.threshold, 1) == job.threshold;
    } else {
      var a, b := BranchParts(job, p);
      assert below < 64;
      if below == 63 {
        MergeTestAtSignBit(Count(job.inputs, p), job.threshold);
        assert false;
      } else {
        MergeTestExact(below, Count(job.inputs, p), job.threshold);
        TimesIsProduct(job.threshold, Pow2(below));
      }
    }
  }

  lemma {:induction false} CollectSize(job: Job, p: Path)
    requires job.Valid() && |p| <= job.width && 0.0 < job.threshold <= 1.0 && !PartsTooEarly(job)
    ensures Times(job.threshold, Size(job.width, job.Collect(p))) <= Count(job.inputs, p) as real
    decreases job.width - |p|
  {
    if job.Eligible(p) {
      assert Size(job.width, [p]) == Breadth(job.width, p);
      EligibleBudget(job, p);
    } else if |p| < job.width {
      var left, right := job.Collect(p + [false]), job.Collect(p + [true]);
      UnderSplit(job.width, job.inputs, p);
      CollectSize(job, p + [false]);
      CollectSize(job, p + [true]);
      SizeConcat(job.width, left, right);
      TimesSum(job.threshold, Size(job.width, left), Size(job.width, right));
    }
  }

  /** The output covers at most (number of inputs) / threshold addresses, for either family, unless
      two inputs part where the shift overflows. */
  lemma OutputSizeBound(job: Job)
    requires job.Valid() && 0.0 < job.threshold <= 1.0 && !PartsTooEarly(job)
    ensures Size(job.width, job.Output()) as real <= |job.inputs| as real / job.threshold
  {
    CollectSize(job, []);
    assert Under(job.inputs, []) == job.inputs;
    var n, t := Size(job.width, job.Output()), job.threshold;
    BudgetQuotient(t, n, |job.inputs|);
  }

  lemma {:induction false} SizeOfMember(width: nat, ps: seq<Path>, i: nat)
    requires i < |ps|
    ensures Size(width, ps) >= Breadth(width, ps[i])
  {
    if i > 0 {
      SizeOfMember(width, ps[1..], i - 1);
    }
  }

  /** Where the shift overflows, one output prefix alone covers 2^64 addresses or more. */
  lemma TooEarlyIsBroad(job: Job)
    requires job.Valid() && PartsTooEarly(job)
    ensures Size(job.width, job.Output()) >= Pow2(64)
  {
    var a, b, d :| a in job.inputs && b in job.inputs && PartAt(a, b, d)
      && Max(1, job.maxPrefix) <= d <= job.width - 64;
    PartingInputs(job, a, b, d);
    MergeTestOverflow(job.width - d, Count(job.inputs, a[..d]), job.threshold);
    var i := EligibleIsInside(job, a[..d], 0);
    SizeOfMember(job.width, job.Output(), i);
    Pow2Monotone(64, job.width - |job.Output()[i]|);
  }

  /** So with fewer than threshold * 2^64 inputs, that is the only way to miss the bound. */
  lemma OutputSizeBoundIff(job: Job)
    requires job.Valid() && 0.0 < job.threshold <= 1.0
    ensures |job.inputs| as real < job.threshold * Pow2(64) as real ==>
              (Size(job.width, job.Output()) as real <= |job.inputs| as real / job.threshold <==> !PartsTooEarly(job))
  {
    if PartsTooEarly(job) {
      TooEarlyIsBroad(job);
      var capacity: real := Pow2(64) as real;
      assert job.threshold * capacity == capacity * job.threshold;
      DivisionTest(|job.inputs| as real, job.threshold, capacity);
      assert Size(job.width, job.Output()) as real >= capacity;
    } else {
      OutputSizeBound(job);
    }
  }

  /** For IPv4 that never happens. */
  lemma OutputSizeBoundV4(job: Job)
    requires job.Valid() && job.width == 32 && 0.0 < job.threshold <= 1.0
    ensures Size(32, job.Output()) as real <= |job.inputs| as real / job.threshold
  {
    OutputSizeBound(job);
  }

  // --- losslessness and minimality ----------------------------------------------

  /** The list covers exactly the given addresses. */
  ghost predicate CoversExactly(width: nat, ps: seq<Path>, s: set<Path>) {
    forall a: Path | |a| == width :: (exists i :: 0 <= i < |ps| && Contains(ps[i], a)) <==> a in s
  }

  /** At threshold 1 an eligible node, other than an overflowing one, is completely filled. */
  lemma EligibleIsFull(job: Job, p: Path)
    requires job.Valid() && job.threshold >= 1.0 && !PartsTooEarly(job)
    requires job.Eligible(p)
    ensures Count(job.inputs, p) == Pow2(job.width - |p|)
  {
    var below := job.width - |p|;
    if below == 0 {
      UnderLeaf(job.width, job.inputs, p);
    } else {
      var a, b := BranchParts(job, p);
      assert below < 64;
      if below == 63 {
        MergeTestAtSignBit(Count(job.inputs, p), job.threshold);
        assert false;
      } else {
        MergeTestAtOne(below, Count(job.inputs, p), job.threshold);
        CountAtMost(job.width, job.inputs, p);
      }
    }
  }

  lemma NotTooEarlyIsLossless(job: Job)
    requires job.Valid() && job.threshold >= 1.0 && !PartsTooEarly(job)
    ensures CoversExactly(job.width, job.Output(), job.inputs)
  {
    forall a: Path | |a| == job.width
      ensures job.Covered(a) <==> a in job.inputs
    {
      if a in job.inputs {
        InputsCoveredOnce(job, a);
      } else if job.Covered(a) {
        var i :| 0 <= i < |job.Output()| && Contains(job.Output()[i], a);
        OutputIsTopmost(job, job.Output()[i]);
        EligibleIsFull(job, job.Output()[i]);
        FullContains(job.width, job.inputs, job.Output()[i], a);
      }
    }
  }

  lemma TooEarlyIsLossy(job: Job)
    requires job.Valid() && PartsTooEarly(job) && |job.inputs| < SIGN_BIT
    ensures !CoversExactly(job.width, job.Output(), job.inputs)
  {
    var a, b, d :| a in job.inputs && b in job.inputs && PartAt(a, b, d)
      && Max(1, job.maxPrefix) <= d <= job.width - 64;
    PartingInputs(job, a, b, d);
    var p := a[..d];
    MergeTestOverflow(job.width - d, Count(job.inputs, p), job.threshold);
    var i := EligibleIsInside(job, p, 0);
    var q := job.Output()[i];
    if CoversExactly(job.width, job.Output(), job.inputs) {
      forall c: Path | Contains(q, c) && |c| == job.width
        ensures c in job.inputs
      {
      }
      ContainsAllIsFull(job.width, job.inputs, q);
      SignBitValue();
      Pow2Monotone(63, job.width - |q|);
      SubsetSize(Under(job.inputs, q), job.inputs);
      assert false;
    }
  }

  /** At threshold 1 the output covers exactly the inputs, unless two of them first differ
      at a mergeable depth with 64 or more address bits below it, where the shift overflows. */
  lemma LosslessIff(job: Job)
    requires job.Valid() && job.threshold == 1.0 && |job.inputs| < SIGN_BIT
    ensures CoversExactly(job.width, job.Output(), job.inputs) <==> !PartsTooEarly(job)
  {
    if PartsTooEarly(job) {
      TooEarlyIsLossy(job);
    } else {
      NotTooEarlyIsLossless(job);
    }
  }

  /** For IPv4 the exception never arises. */
  lemma LosslessV4(job: Job)
    requires job.Valid() && job.width == 32 && job.threshold == 1.0
    ensures CoversExactly(32, job.Output(), job.inputs)
  {
    NotTooEarlyIsLossless(job);
  }

  /** For IPv6 it does not arise with maxPrefix 65 or more. */
  lemma LosslessV6(job: Job)
    requires job.Valid() && job.width == 128 && job.threshold == 1.0 && job.maxPrefix >= 65
    ensures CoversExactly(128, job.Output(), job.inputs)
  {
    NotTooEarlyIsLossless(job);
  }

  lemma SmallCapacity(below: nat)
    requires Pow2(below) < SIGN_BIT
    ensures below <= 62
  {
    if below >= 63 {
      SignBitValue();
      Pow2Monotone(63, below);
    }
  }

  lemma FilledBranches(job: Job, r: Path)
    requires job.Valid() && |r| < job.width && Count(job.inputs, r) == Pow2(job.width - |r|)
    ensures job.Branches(r)
  {
    UnderSplit(job.width, job.inputs, r);
    CountAtMost(job.width, job.inputs, r + [false]);
    CountAtMost(job.width, job.inputs, r + [true]);
  }

  /** A prefix filled by inputs, and not too broad, is eligible at threshold 1. */
  lemma FilledIsEligible(job: Job, r: Path)
    requires job.Valid() && job.threshold == 1.0 && |job.inputs| < SIGN_BIT
    requires Max(1, job.maxPrefix) <= |r| <= job.width
    requires forall a: Path | Contains(r, a) && |a| == job.width :: a in job.inputs
    ensures job.Eligible(r)
  {
    ContainsAllIsFull(job.width, job.inputs, r);
    SubsetSize(Under(job.inputs, r), job.inputs);
    if |r| == job.width {
      UnderLeaf(job.width, job.inputs, r);
    } else {
      FilledBranches(job, r);
      SmallCapacity(job.width - |r|);
      MergeTestFull(job.width - |r|);
    }
  }

  /** At threshold 1 no list of prefixes that are no broader than allowed, and that cover
      exactly the inputs, is shorter than the output. */
  lemma OutputIsMinimal(job: Job, ps: seq<Path>)
    requires job.Valid() && job.threshold == 1.0 && |job.inputs| < SIGN_BIT
    requires forall i | 0 <= i < |ps| :: Max(1, job.maxPrefix) <= |ps[i]| <= job.width
    requires CoversExactly(job.width, ps, job.inputs)
    ensures |job.Output()| <= |ps|
  {
    var out, members := job.Output(), Elems(ps);
    OutputInOrder(job);
    forall i | 0 <= i < |out|
      ensures HasMember(out[i], members)
    {
      OutputBounds(job, out[i]);
      var a :| a in Under(job.inputs, out[i]);
      var k :| 0 <= k < |ps| && Contains(ps[k], a);
      assert forall c: Path | Contains(ps[k], c) && |c| == job.width :: c in job.inputs;
      FilledIsEligible(job, ps[k]);
      var j := EligibleIsInside(job, ps[k], 0);
      ContainsTransitive(out[j], ps[k], a);
      InputsCoveredOnce(job, a);
      assert j == i && ps[k] in members;
    }
    DisjointNeedsMany(out, members);
    ElementsAtMostLength(ps);
  }

  // --- level "off" ------------------------------------------------------------------

  /** Level "off" is passed on as threshold -1. It gives one prefix per address only when no
      two inputs first differ at a depth the walk may merge. */
  lemma OffIsIdentityIff(job: Job)
    requires job.Valid() && job.threshold == -1.0 && |job.inputs| < SIGN_BIT
    ensures (forall q | q in job.Output() :: |q| == job.width)
       <==> (forall a, b, d | a in job.inputs && b in job.inputs && PartAt(a, b, d) ::
               d < Max(1, job.maxPrefix))
  {
    if a, b, d :| a in job.inputs && b in job.inputs && PartAt(a, b, d) && d >= Max(1, job.maxPrefix) {
      PartingInputs(job, a, b, d);
      SubsetSize(Under(job.inputs, a[..d]), job.inputs);
      MergeTestAtMinusOne(job.width - d, Count(job.inputs, a[..d]));
      var i := EligibleIsInside(job, a[..d], 0);
      assert job.Output()[i] in job.Output();
      assert |job.Output()[i]| < job.width;
    } else {
      forall q | q in job.Output()
        ensures |q| == job.width
      {
        OutputIsTopmost(job, q);
        if |q| < job.width {
          var a, b := BranchParts(job, q);
          assert false;
        }
      }
    }
  }

  // --- concrete inputs ------------------------------------------------------------------

  /** Two IPv6 addresses that differ only in bit 40 become one /40 at threshold 1. */
  lemma LossyExampleV6(job: Job)
    requires job.width == 128 && job.threshold == 1.0 && job.maxPrefix == 32
    requires job.inputs == {Pad([], 128), Pad([], 128)[40 := true]}
    ensures !CoversExactly(128, job.Output(), job.inputs)
  {
    var a, b := Pad([], 128), Pad([], 128)[40 := true];
    assert PartAt(a, b, 40);
    TooEarlyIsLossy(job);
  }

  /** At level "off", two neighbouring IPv4 addresses become one /31. */
  lemma OffExampleV4(job: Job)
    requires job.width == 32 && job.threshold == -1.0 && job.maxPrefix == 16
    requires job.inputs == {Pad([], 32), Pad([], 32)[31 := true]}
    ensures exists q :: q in job.Output() && |q| < 32
  {
    var a, b := Pad([], 32), Pad([], 32)[31 := true];
    assert PartAt(a, b, 31);
    OffIsIdentityIff(job);
    var q :| q in job.Output() && |q| != 32;
    OutputBounds(job, q);
  }
}
