/** The plans of internal/routing: buildPlan for the policy routers, computePlan for the legacy ones. */
module Plans {
  import opened Collections
  import opened NetIP
  import opened Sorting

  datatype Family = FamilyV4 | FamilyV6

  datatype Plan = Plan(family: Family, add: seq<Prefix>, remove: seq<Prefix>) {
    predicate Empty() {
      |add| == 0 && |remove| == 0
    }
  }

  // --- buildPlan ------------------------------------------------------------

  /** The entries of xs outside s, in order and with repetitions. */
  function Without(xs: seq<Prefix>, s: set<Prefix>): seq<Prefix> {
    if xs == [] then []
    else
      var last := xs[|xs| - 1];
      Without(xs[..|xs| - 1], s) + if last in s then [] else [last]
  }

  lemma {:induction false} WithoutCounts(xs: seq<Prefix>, s: set<Prefix>, x: Prefix)
    ensures multiset(Without(xs, s))[x] == if x in s then 0 else multiset(xs)[x]
  {
    if xs != [] {
      assert xs == xs[..|xs| - 1] + [xs[|xs| - 1]];
      WithoutCounts(xs[..|xs| - 1], s, x);
    }
  }

  lemma WithoutElems(xs: seq<Prefix>, s: set<Prefix>)
    ensures Elems(Without(xs, s)) == Elems(xs) - s
  {
    forall x
      ensures x in Without(xs, s) <==> x in xs && x !in s
    {
      WithoutCounts(xs, s, x);
      assert x in Without(xs, s) <==> x in multiset(Without(xs, s));
      assert x in xs <==> x in multiset(xs);
    }
  }

  /** buildPlan. The sets are keyed by Prefix.String(), which tells valid prefixes apart. */
  method BuildPlan(current: seq<Prefix>, desired: seq<Prefix>, family: Family) returns (plan: Plan)
    ensures plan == Diff(current, desired, family)
  {
    var currentSet := {};
    for i := 0 to |current|
      invariant currentSet == Elems(current[..i])
    {
      assert current[..i + 1] == current[..i] + [current[i]];
      currentSet := currentSet + {current[i]};
    }
    assert current[..|current|] == current;
    var desiredSet := {};
    for i := 0 to |desired|
      invariant desiredSet == Elems(desired[..i])
    {
      assert desired[..i + 1] == desired[..i] + [desired[i]];
      desiredSet := desiredSet + {desired[i]};
    }
    assert desired[..|desired|] == desired;

    var add, remove := [], [];
    for i := 0 to |desired|
      invariant add == Without(desired[..i], currentSet)
    {
      assert desired[..i + 1][..i] == desired[..i];
      if desired[i] !in currentSet {
        add := add + [desired[i]];
      }
    }
    for i := 0 to |current|
      invariant remove == Without(current[..i], desiredSet)
    {
      assert current[..i + 1][..i] == current[..i];
      if current[i] !in desiredSet {
        remove := remove + [current[i]];
      }
    }
    plan := Plan(family, add, remove);
  }

  function Diff(current: seq<Prefix>, desired: seq<Prefix>, family: Family): Plan {
    Plan(family, Without(desired, Elems(current)), Without(current, Elems(desired)))
  }

  /** A plan leads from one set to another. */
  ghost predicate Leads(plan: Plan, current: set<Prefix>, desired: set<Prefix>) {
    current - Elems(plan.remove) + Elems(plan.add) == desired
  }

  // --- computePlan ------------------------------------------------------------

  /** sortPrefixes orders by Addr.Compare (shorter addresses first), then by length. */
  predicate ComparesBefore(p: Prefix, q: Prefix) {
    || BitLen(p.addr) < BitLen(q.addr)
    || (BitLen(p.addr) == BitLen(q.addr)
        && (AddrLess(p.addr, q.addr) || (p.addr == q.addr && p.bits < q.bits)))
  }

  lemma AddrLessTotal(a: Addr, b: Addr)
    requires BitLen(a) == BitLen(b) && a != b
    ensures AddrLess(a, b) || AddrLess(b, a)
  {
    if a.V4? {
      assert As16(a)[12..] == a.b4 && As16(b)[12..] == b.b4;
    }
    LexTotal(As16(a), As16(b), 0);
  }

  lemma ComparesBeforeTotal(p: Prefix, q: Prefix)
    ensures p != q ==> ComparesBefore(p, q) || ComparesBefore(q, p)
    ensures ComparesBefore(p, q) ==> !ComparesBefore(q, p)
  {
    if BitLen(p.addr) == BitLen(q.addr) && p.addr != q.addr {
      AddrLessTotal(p.addr, q.addr);
    }
    AddrLessIsOrder();
  }

  lemma ComparesBeforeIsOrder()
    ensures StrictWeakOrder(ComparesBefore)
  {
    AddrLessIsOrder();
    forall p, q, r
      ensures ComparesBefore(p, q) && ComparesBefore(q, r) ==> ComparesBefore(p, r)
    {
    }
    forall p, q, r
      ensures ComparesBefore(p, r) ==> ComparesBefore(p, q) || ComparesBefore(q, r)
    {
      ComparesBeforeTotal(p, q);
      ComparesBeforeTotal(q, r);
    }
  }

  /** Duplicates gone, in order. */
  ghost predicate Canonical(xs: seq<Prefix>) {
    StrictlySorted(ComparesBefore, xs)
  }

  lemma SortedNoDupIsCanonical(xs: seq<Prefix>)
    requires Sorted(ComparesBefore, xs) && NoDup(xs)
    ensures Canonical(xs)
  {
    forall i, j | 0 <= i < j < |xs|
      ensures ComparesBefore(xs[i], xs[j])
    {
      ComparesBeforeTotal(xs[i], xs[j]);
    }
  }

  /** A set has one canonical listing, so plans are deterministic. */
  lemma {:induction false} CanonicalUnique(xs: seq<Prefix>, ys: seq<Prefix>)
    requires Canonical(xs) && Canonical(ys) && Elems(xs) == Elems(ys)
    ensures xs == ys
  {
    assert xs != [] ==> xs[0] in Elems(ys);
    assert ys != [] ==> ys[0] in Elems(xs);
    if xs != [] {
      CanonicalIsSorted(ys);
      SameHead(ComparesBefore, xs, ys);
      TailElems(xs);
      TailElems(ys);
      CanonicalUnique(xs[1..], ys[1..]);
      assert xs == [xs[0]] + xs[1..] && ys == [ys[0]] + ys[1..];
    }
  }

  lemma CanonicalIsSorted(xs: seq<Prefix>)
    requires Canonical(xs)
    ensures Sorted(ComparesBefore, xs) && NoDup(xs)
  {
    forall i, j | 0 <= i < j < |xs|
      ensures !ComparesBefore(xs[j], xs[i]) && xs[i] != xs[j]
    {
      ComparesBeforeTotal(xs[i], xs[j]);
    }
  }

  lemma TailElems(xs: seq<Prefix>)
    requires Canonical(xs) && xs != []
    ensures Elems(xs[1..]) == Elems(xs) - {xs[0]}
  {
    ComparesBeforeIsOrder();
    assert xs == [xs[0]] + xs[1..];
    assert forall j | 1 <= j < |xs| :: ComparesBefore(xs[0], xs[j]);
  }

  method SortPrefixes(xs: seq<Prefix>) returns (ys: seq<Prefix>)
    requires NoDup(xs)
    ensures Canonical(ys) && Elems(ys) == Elems(xs)
  {
    ys := Sort(ComparesBefore, xs);
    ComparesBeforeIsOrder();
    SortSorts(ComparesBefore, xs);
    SortIsPermutation(ComparesBefore, xs);
    SameElements(xs, ys);
    PermutedNoDup(xs, ys);
    SortedNoDupIsCanonical(ys);
  }

  method Dedup(xs: seq<Prefix>) returns (out: seq<Prefix>)
    ensures Canonical(out) && Elems(out) == Elems(xs)
  {
    var seen := {};
    out := [];
    for i := 0 to |xs|
      invariant seen == Elems(xs[..i]) == Elems(out) && NoDup(out)
    {
      assert xs[..i + 1] == xs[..i] + [xs[i]];
      if xs[i] in seen {
        continue;
      }
      seen := seen + {xs[i]};
      out := out + [xs[i]];
    }
    assert xs[..|xs|] == xs;
    out := SortPrefixes(out);
  }

  method ComputePlan(current: seq<Prefix>, desired: seq<Prefix>, family: Family) returns (plan: Plan)
    ensures plan.family == family
    ensures Canonical(plan.add) && Elems(plan.add) == Elems(desired) - Elems(current)
    ensures Canonical(plan.remove) && Elems(plan.remove) == Elems(current) - Elems(desired)
  {
    var cur := Dedup(current);
    var des := Dedup(desired);
    var add, remove := [], [];
    for i := 0 to |des|
      invariant add == Without(des[..i], Elems(cur))
    {
      assert des[..i + 1][..i] == des[..i];
      if des[i] !in cur {
        add := add + [des[i]];
      }
    }
    assert des[..|des|] == des;
    for i := 0 to |cur|
      invariant remove == Without(cur[..i], Elems(des))
    {
      assert cur[..i + 1][..i] == cur[..i];
      if cur[i] !in des {
        remove := remove + [cur[i]];
      }
    }
    assert cur[..|cur|] == cur;
    WithoutElems(des, Elems(cur));
    WithoutElems(cur, Elems(des));
    CanonicalIsSorted(des);
    CanonicalIsSorted(cur);
    WithoutNoDup(des, Elems(cur));
    WithoutNoDup(cur, Elems(des));
    add := SortPrefixes(add);
    remove := SortPrefixes(remove);
    plan := Plan(family, add, remove);
  }

  lemma WithoutNoDup(xs: seq<Prefix>, s: set<Prefix>)
    requires NoDup(xs)
    ensures NoDup(Without(xs, s))
  {
    NoDupCounts(xs);
    NoDupCounts(Without(xs, s));
    forall x | x in Without(xs, s)
      ensures multiset(Without(xs, s))[x] == 1
    {
      WithoutCounts(xs, s, x);
      assert x in multiset(Without(xs, s));
      assert x in multiset(xs);
    }
  }

  /** No plan from current to desired adds or removes less. */
  lemma PlanIsMinimal(plan: Plan, other: Plan, current: set<Prefix>, desired: set<Prefix>)
    requires Elems(plan.add) == desired - current && Elems(plan.remove) == current - desired
    requires Leads(other, current, desired)
    ensures Leads(plan, current, desired)
    ensures Elems(plan.add) <= Elems(other.add) && Elems(plan.remove) <= Elems(other.remove)
    ensures plan.Empty() <==> current == desired
  {
    assert plan.add == [] <==> Elems(plan.add) == {} by {
      assert plan.add != [] ==> plan.add[0] in Elems(plan.add);
    }
    assert plan.remove == [] <==> Elems(plan.remove) == {} by {
      assert plan.remove != [] ==> plan.remove[0] in Elems(plan.remove);
    }
  }
}
