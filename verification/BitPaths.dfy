/** Bit strings read from the top of an address downwards.
    A path of length d names the tree node at depth d, and at the same time the
    CIDR prefix of length d. */
module BitPaths {
  type Path = seq<bool>

  /** Prefix p contains a (an address, or a longer prefix). */
  predicate Contains(p: Path, a: Path) {
    |p| <= |a| && a[..|p|] == p
  }

  function Pow2(n: nat): (r: nat)
    ensures r >= 1
  {
    if n == 0 then 1 else 2 * Pow2(n - 1)
  }

  lemma {:induction false} Pow2Monotone(m: nat, n: nat)
    requires m <= n
    ensures Pow2(m) <= Pow2(n)
    decreases n
  {
    if m < n {
      Pow2Monotone(m, n - 1);
    }
  }

  ghost predicate OfWidth(s: set<Path>, w: nat) {
    forall a | a in s :: |a| == w
  }

  /** p followed by zeros up to width w. */
  function Pad(p: Path, w: nat): (q: Path)
    requires |p| <= w
    ensures |q| == w && Contains(p, q)
    ensures forall d | |p| <= d < w :: !q[d]
  {
    p + seq(w - |p|, _ => false)
  }

  /** The members of s inside prefix p. */
  function Under(s: set<Path>, p: Path): set<Path> {
    set a | a in s && Contains(p, a)
  }

  function Count(s: set<Path>, p: Path): nat {
    |Under(s, p)|
  }

  /** x ends up on the left of y: they part at some bit, where x has 0 and y has 1. */
  ghost predicate Before(x: Path, y: Path) {
    exists k | 0 <= k < |x| && k < |y| :: x[..k] == y[..k] && !x[k] && y[k]
  }

  ghost predicate InOrder(ps: seq<Path>) {
    forall i, j | 0 <= i < j < |ps| :: Before(ps[i], ps[j])
  }

  /** Nothing lies inside both x and y. */
  ghost predicate Apart(x: Path, y: Path) {
    forall a: Path :: !(Contains(x, a) && Contains(y, a))
  }

  lemma BeforeIsApart(x: Path, y: Path)
    requires Before(x, y)
    ensures Apart(x, y) && Apart(y, x)
  {
    var k :| 0 <= k < |x| && k < |y| && x[..k] == y[..k] && !x[k] && y[k];
    forall a: Path
      ensures !(Contains(x, a) && Contains(y, a))
    {
      if Contains(x, a) && Contains(y, a) {
        assert false;
      }
    }
  }

  lemma ChildContains(p: Path, b: bool, a: Path)
    requires |p| < |a|
    ensures Contains(p + [b], a) <==> Contains(p, a) && a[|p|] == b
  {
    if Contains(p + [b], a) {
      assert forall i | 0 <= i < |p| :: p[i] == (p + [b])[i] == a[i];
      assert a[|p|] == (p + [b])[|p|];
    }
  }

  /** Two prefixes of one string are comparable. */
  lemma Comparable(x: Path, y: Path, a: Path)
    requires Contains(x, a) && Contains(y, a)
    ensures |x| <= |y| ==> Contains(x, y)
    ensures |y| <= |x| ==> Contains(y, x)
  {
    if |x| <= |y| {
      assert a[..|y|][..|x|] == a[..|x|];
    } else {
      assert a[..|x|][..|y|] == a[..|y|];
    }
  }

  lemma ContainsTransitive(x: Path, y: Path, z: Path)
    requires Contains(x, y) && Contains(y, z)
    ensures Contains(x, z)
  {
    assert z[..|y|][..|x|] == z[..|x|];
  }

  /** In an ordered list at most one entry contains a given string. */
  lemma OnlyOneContains(ps: seq<Path>, i: int, j: int, a: Path)
    requires InOrder(ps) && 0 <= i < |ps| && 0 <= j < |ps|
    requires Contains(ps[i], a) && Contains(ps[j], a)
    ensures i == j
  {
    if i < j {
      BeforeIsApart(ps[i], ps[j]);
    } else if j < i {
      BeforeIsApart(ps[j], ps[i]);
    }
  }

  // --- counting -----------------------------------------------------------

  lemma UnderSplit(w: nat, s: set<Path>, p: Path)
    requires OfWidth(s, w) && |p| < w
    ensures Under(s, p) == Under(s, p + [false]) + Under(s, p + [true])
    ensures Under(s, p + [false]) !! Under(s, p + [true])
    ensures Count(s, p) == Count(s, p + [false]) + Count(s, p + [true])
  {
    forall a | a in s
      ensures Contains(p, a) <==> Contains(p + [false], a) || Contains(p + [true], a)
      ensures !(Contains(p + [false], a) && Contains(p + [true], a))
    {
      ChildContains(p, false, a);
      ChildContains(p, true, a);
    }
    assert Under(s, p) == Under(s, p + [false]) + Under(s, p + [true]);
  }

  lemma UnderLeaf(w: nat, s: set<Path>, p: Path)
    requires OfWidth(s, w) && |p| == w
    ensures Under(s, p) == if p in s then {p} else {}
    ensures Count(s, p) == if p in s then 1 else 0
  {
    forall a | a in s && Contains(p, a)
      ensures a == p
    {
      assert a[..|p|] == a;
    }
    assert Under(s, p) == if p in s then {p} else {};
  }

  lemma {:induction false} CountAtMost(w: nat, s: set<Path>, p: Path)
    requires OfWidth(s, w) && |p| <= w
    ensures Count(s, p) <= Pow2(w - |p|)
    decreases w - |p|
  {
    if |p| == w {
      UnderLeaf(w, s, p);
    } else {
      UnderSplit(w, s, p);
      CountAtMost(w, s, p + [false]);
      CountAtMost(w, s, p + [true]);
    }
  }

  /** A subtree that reaches its capacity contains every address below it. */
  lemma {:induction false} FullContains(w: nat, s: set<Path>, p: Path, a: Path)
    requires OfWidth(s, w) && |p| <= w && Count(s, p) == Pow2(w - |p|)
    requires Contains(p, a) && |a| == w
    ensures a in s
    decreases w - |p|
  {
    if |p| == w {
      UnderLeaf(w, s, p);
      assert a == p;
    } else {
      UnderSplit(w, s, p);
      CountAtMost(w, s, p + [false]);
      CountAtMost(w, s, p + [true]);
      ChildContains(p, a[|p|], a);
      assert Pow2(w - |p|) == 2 * Pow2(w - |p| - 1);
      FullContains(w, s, p + [a[|p|]], a);
    }
  }

  /** ... and conversely. */
  lemma {:induction false} ContainsAllIsFull(w: nat, s: set<Path>, p: Path)
    requires OfWidth(s, w) && |p| <= w
    requires forall a: Path | Contains(p, a) && |a| == w :: a in s
    ensures Count(s, p) == Pow2(w - |p|)
    decreases w - |p|
  {
    if |p| == w {
      UnderLeaf(w, s, p);
    } else {
      UnderSplit(w, s, p);
      forall b: bool, a: Path | Contains(p + [b], a) && |a| == w
        ensures a in s
      {
        ChildContains(p, b, a);
      }
      ContainsAllIsFull(w, s, p + [false]);
      ContainsAllIsFull(w, s, p + [true]);
    }
  }

  lemma CountMonotone(s: set<Path>, t: set<Path>, p: Path)
    requires s <= t
    ensures Count(s, p) <= Count(t, p)
  {
    SubsetSize(Under(s, p), Under(t, p));
  }

  lemma SubsetSize<T>(s: set<T>, t: set<T>)
    requires s <= t
    ensures |s| <= |t|
  {
    assert t == s + (t - s);
  }

  // --- pigeonhole ---------------------------------------------------------

  ghost predicate HasMember(p: Path, ys: set<Path>) {
    exists y :: y in ys && Contains(p, y)
  }

  /** If pairwise disjoint prefixes each contain a member of ys, there are at
      least as many ys as prefixes. */
  lemma {:induction false} DisjointNeedsMany(ps: seq<Path>, ys: set<Path>)
    requires InOrder(ps)
    requires forall i | 0 <= i < |ps| :: HasMember(ps[i], ys)
    ensures |ps| <= |ys|
  {
    if ps != [] {
      var last := ps[|ps| - 1];
      var init := ps[..|ps| - 1];
      assert HasMember(last, ys);
      var y :| y in ys && Contains(last, y);
      var rest := ys - {y};
      forall i | 0 <= i < |init|
        ensures HasMember(init[i], rest)
      {
        assert Before(ps[i], last);
        BeforeIsApart(ps[i], last);
        assert HasMember(ps[i], ys);
        var z :| z in ys && Contains(ps[i], z);
        assert z in rest && Contains(init[i], z);
      }
      DisjointNeedsMany(init, rest);
    }
  }
}
