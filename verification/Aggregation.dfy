/** What the tree walk of pkg/cidr computes, on sets of bit strings, and what that means. */
module Aggregation {
  import opened BitPaths
  import opened Density

  function Max(a: int, b: int): int {
    if a >= b then a else b
  }

  /** One family's aggregation problem: `width` is 32 or 128. */
  datatype Job = Job(width: nat, inputs: set<Path>, threshold: real, maxPrefix: int) {

    ghost predicate Valid() {
      OfWidth(inputs, width)
    }

    /** Both halves of p hold inputs. */
    predicate Branches(p: Path) {
      Count(inputs, p + [false]) > 0 && Count(inputs, p + [true]) > 0
    }

    /** p may stand in the output: an input itself, or a node that may be merged. */
    predicate Eligible(p: Path) {
      if |p| >= width then |p| == width && p in inputs
      else
        && |p| > 0 && |p| >= maxPrefix
        && Branches(p)
        && Count(inputs, p) > 0 && MergeTest(width - |p|, Count(inputs, p), threshold)
    }

    /** p is eligible and lies in no broader eligible prefix. */
    predicate Topmost(p: Path) {
      Eligible(p) && forall k | 0 <= k < |p| :: !Eligible(p[..k])
    }

    /** The walk: stop at the first eligible node on the way down, left before right. */
    function Collect(p: Path): (out: seq<Path>)
      decreases width - |p|
    {
      if Eligible(p) then [p]
      else if |p| >= width then []
      else Collect(p + [false]) + Collect(p + [true])
    }

    function Output(): seq<Path> {
      Collect([])
    }

    /** Address a is inside some output prefix. */
    ghost predicate Covered(a: Path) {
      exists i :: 0 <= i < |Output()| && Contains(Output()[i], a)
    }
  }

  // --- the output is exactly the topmost eligible prefixes, in order --------

  /** Nothing between p (inclusive) and q (exclusive) is eligible, but q is. */
  predicate FirstBelow(job: Job, p: Path, q: Path) {
    Contains(p, q) && job.Eligible(q) && forall k | |p| <= k < |q| :: !job.Eligible(q[..k])
  }

  lemma {:induction false} CollectMembers(job: Job, p: Path, q: Path)
    requires |p| <= job.width
    ensures q in job.Collect(p) <==> FirstBelow(job, p, q)
    decreases job.width - |p|
  {
    if job.Eligible(p) {
      if Contains(p, q) && |q| > |p| {
        assert q[..|p|] == p;
      }
      assert Contains(p, q) && |q| == |p| ==> q == p;
    } else if |p| == job.width {
      if Contains(p, q) {
        assert |q| == |p| ==> q == p;
      }
    } else {
      CollectMembers(job, p + [false], q);
      CollectMembers(job, p + [true], q);
      if |q| > |p| {
        ChildContains(p, false, q);
        ChildContains(p, true, q);
        if Contains(p, q) {
          assert q[..|p|] == p;
        }
        assert FirstBelow(job, p, q) <==> FirstBelow(job, p + [q[|p|]], q);
      } else {
        assert Contains(p, q) ==> q == p;
      }
    }
  }

  lemma OutputIsTopmost(job: Job, q: Path)
    ensures q in job.Output() <==> job.Topmost(q)
  {
    CollectMembers(job, [], q);
    assert Contains([], q);
  }

  lemma {:induction false} CollectInOrder(job: Job, p: Path)
    requires |p| <= job.width
    ensures InOrder(job.Collect(p))
    decreases job.width - |p|
  {
    if !job.Eligible(p) && |p| < job.width {
      var left, right := job.Collect(p + [false]), job.Collect(p + [true]);
      CollectInOrder(job, p + [false]);
      CollectInOrder(job, p + [true]);
      forall x, y | x in left && y in right
        ensures Before(x, y)
      {
        CollectMembers(job, p + [false], x);
        CollectMembers(job, p + [true], y);
        ChildContains(p, false, x);
        ChildContains(p, true, y);
      }
      forall i, j | 0 <= i < j < |left + right|
        ensures Before((left + right)[i], (left + right)[j])
      {
        if i < |left| && j >= |left| {
          assert left[i] in left && right[j - |left|] in right;
        }
      }
    }
  }

  lemma OutputInOrder(job: Job)
    ensures InOrder(job.Output())
  {
    CollectInOrder(job, []);
  }

  /** An eligible prefix lies inside exactly one output prefix. */
  lemma {:induction false} EligibleIsInside(job: Job, p: Path, k: nat) returns (i: nat)
    requires job.Eligible(p) && k <= |p|
    requires forall l | 0 <= l < k :: !job.Eligible(p[..l])
    ensures i < |job.Output()| && Contains(job.Output()[i], p)
    ensures forall j | 0 <= j < |job.Output()| && Contains(job.Output()[j], p) :: j == i
    decreases |p| - k
  {
    assert p[..|p|] == p;
    if job.Eligible(p[..k]) {
      var q := p[..k];
      assert forall l | 0 <= l < k :: q[..l] == p[..l];
      OutputIsTopmost(job, q);
      i :| 0 <= i < |job.Output()| && job.Output()[i] == q;
      OutputInOrder(job);
      forall j | 0 <= j < |job.Output()| && Contains(job.Output()[j], p)
        ensures j == i
      {
        OnlyOneContains(job.Output(), i, j, p);
      }
    } else {
      i := EligibleIsInside(job, p, k + 1);
    }
  }

  /** Every input is covered, by exactly one output prefix. */
  lemma InputsCoveredOnce(job: Job, a: Path)
    requires job.Valid() && a in job.inputs
    ensures job.Covered(a)
    ensures forall i, j | 0 <= i < |job.Output()| && 0 <= j < |job.Output()| ::
              Contains(job.Output()[i], a) && Contains(job.Output()[j], a) ==> i == j
  {
    var i := EligibleIsInside(job, a, 0);
  }

  /** Every output prefix holds an input, and is not broader than allowed. */
  lemma OutputBounds(job: Job, q: Path)
    requires job.Valid() && q in job.Output()
    ensures |q| <= job.width
    ensures |q| == job.width || |q| >= Max(1, job.maxPrefix)
    ensures Count(job.inputs, q) > 0
  {
    OutputIsTopmost(job, q);
    if |q| == job.width {
      UnderLeaf(job.width, job.inputs, q);
    }
  }

  /** A prefix shared by strings that part at bit d is at most d long. */
  lemma PartedStrings(p: Path, l: Path, r: Path, d: nat)
    requires d < |l| && d < |r| && l[d] != r[d]
    requires Contains(p, l) && Contains(p, r)
    ensures |p| <= d
  {
  }

  /** An output prefix is the longest common prefix of the inputs inside it. */
  lemma OutputIsLongestCommonPrefix(job: Job, q: Path, p: Path)
    requires job.Valid() && q in job.Output()
    requires forall a | a in Under(job.inputs, q) :: Contains(p, a)
    ensures Contains(p, q) && Under(job.inputs, q) != {}
  {
    OutputBounds(job, q);
    OutputIsTopmost(job, q);
    var a :| a in Under(job.inputs, q);
    if |q| < job.width {
      var l :| l in Under(job.inputs, q + [false]);
      var r :| r in Under(job.inputs, q + [true]);
      UnderSplit(job.width, job.inputs, q);
      ChildContains(q, false, l);
      ChildContains(q, true, r);
      PartedStrings(p, l, r, |q|);
    }
    assert Contains(p, a);
    Comparable(p, q, a);
  }
}
