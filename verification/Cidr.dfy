/** Aggregate and aggregateFamily of pkg/cidr/aggregate.go. */
module Cidr {
  import opened BitPaths
  import opened Aggregation
  import opened Collections
  import opened Density
  import opened Guarantees
  import opened NetIP
  import opened RadixTree
  import opened Sorting

  /** maxPrefix brought into the family's range. */
  function Clamp(isV6: bool, maxPrefix: int): int {
    if maxPrefix < 0 then 0 else if maxPrefix > Width(isV6) then Width(isV6) else maxPrefix
  }

  /** The bit strings of the addresses of one family. */
  function FamilyInputs(addrs: seq<Addr>, isV6: bool): set<Path> {
    set a | a in addrs && !a.Invalid? && a.V6? == isV6 :: BitsOf(a)
  }

  function FamilyJob(addrs: seq<Addr>, isV6: bool, threshold: real, maxPrefix: int): Job {
    Job(Width(isV6), FamilyInputs(addrs, isV6), threshold, Clamp(isV6, maxPrefix))
  }

  method AggregateFamily(addrs: seq<Addr>, isV6: bool, threshold: real, maxPrefix: int)
    returns (prefixes: seq<Prefix>)
    requires forall a | a in addrs :: !a.Invalid? && a.V6? == isV6
    ensures Renders(isV6, prefixes, FamilyJob(addrs, isV6, threshold, maxPrefix).Output())
  {
    var limit := maxPrefix;
    if isV6 {
      if limit < 0 {
        limit := 0;
      }
      if limit > 128 {
        limit := 128;
      }
    } else {
      if limit < 0 {
        limit := 0;
      }
      if limit > 32 {
        limit := 32;
      }
    }

    var uniqueAddrs := UniqueSorted(addrs);
    var tree := BuildTree(uniqueAddrs, isV6);
    assert tree.inputs == FamilyInputs(addrs, isV6);
    prefixes := tree.Aggregate(threshold, limit);
  }

  /** aggregateFamily's deduplication: through a map, then sorted. */
  method UniqueSorted(addrs: seq<Addr>) returns (sortedAddrs: seq<Addr>)
    ensures forall a :: a in sortedAddrs <==> a in addrs
    ensures Sorted(AddrLess, sortedAddrs)
  {
    var addrSet := {};
    for i := 0 to |addrs|
      invariant addrSet == set a | a in addrs[..i]
    {
      addrSet := addrSet + {addrs[i]};
    }
    assert addrs[..|addrs|] == addrs;

    // Go ranges over a map in no particular order.
    var uniqueAddrs, rest := [], addrSet;
    while rest != {}
      invariant rest <= addrSet
      invariant forall a :: a in uniqueAddrs <==> a in addrSet && a !in rest
    {
      var a :| a in rest;
      uniqueAddrs := uniqueAddrs + [a];
      rest := rest - {a};
    }
    sortedAddrs := Sort(AddrLess, uniqueAddrs);
    AddrLessIsOrder();
    SortIsPermutation(AddrLess, uniqueAddrs);
    SortSorts(AddrLess, uniqueAddrs);
    SameElements(sortedAddrs, uniqueAddrs);
  }

  lemma FamilyInputsStep(addrs: seq<Addr>, i: nat, isV6: bool)
    requires i < |addrs| && !addrs[i].Invalid? && addrs[i].V6? == isV6
    ensures FamilyInputs(addrs[..i + 1], isV6) == FamilyInputs(addrs[..i], isV6) + {BitsOf(addrs[i])}
  {
    assert addrs[..i + 1] == addrs[..i] + [addrs[i]];
  }

  /** The tree after the first i rounds of the insertion loop. */
  ghost predicate Built(tree: RadixTree, addrs: seq<Addr>, i: nat, isV6: bool)
    requires i <= |addrs|
    reads tree, tree.Nodes()
  {
    tree.Valid() && tree.isV6 == isV6 && tree.inputs == FamilyInputs(addrs[..i], isV6)
  }

  /** One round. */
  method InsertNext(tree: RadixTree, addrs: seq<Addr>, i: nat, isV6: bool)
    requires i < |addrs| && !addrs[i].Invalid? && addrs[i].V6? == isV6 && Built(tree, addrs, i, isV6)
    modifies tree`at, tree`inputs, tree.Nodes()
    ensures Built(tree, addrs, i + 1, isV6)
    ensures fresh(tree.Nodes() - old(tree.Nodes()))
  {
    FamilyInputsStep(addrs, i, isV6);
    tree.Insert(addrs[i]);
  }

  /** aggregateFamily's insertion loop. */
  method BuildTree(addrs: seq<Addr>, isV6: bool) returns (tree: RadixTree)
    requires forall a | a in addrs :: !a.Invalid? && a.V6? == isV6
    ensures fresh(tree) && fresh(tree.Nodes()) && tree.Valid()
    ensures tree.isV6 == isV6 && tree.inputs == FamilyInputs(addrs, isV6)
  {
    tree := new RadixTree(isV6);
    for i := 0 to |addrs|
      invariant fresh(tree) && fresh(tree.Nodes())
      invariant Built(tree, addrs, i, isV6)
    {
      InsertNext(tree, addrs, i, isV6);
    }
    assert addrs[..|addrs|] == addrs;
  }

  // --- the whole of Aggregate -------------------------------------------------

  /** p is the netip form of an output prefix of the job. */
  ghost predicate Emitted(isV6: bool, job: Job, p: Prefix) {
    p.addr.V6? == isV6 && exists q | q in job.Output() :: Denotes(p, q)
  }

  lemma RendersMembers(isV6: bool, out: seq<Prefix>, job: Job, p: Prefix)
    requires Renders(isV6, out, job.Output())
    ensures p in out <==> Emitted(isV6, job, p)
  {
    if p in out {
      var i :| 0 <= i < |out| && out[i] == p;
      assert job.Output()[i] in job.Output();
    }
    if Emitted(isV6, job, p) {
      var q :| q in job.Output() && Denotes(p, q);
      var i :| 0 <= i < |out| && job.Output()[i] == q;
      DenotesUnique(p, out[i], q);
    }
  }

  /** The tree walk already emits one family in strictly increasing address order. */
  lemma RendersSorted(isV6: bool, out: seq<Prefix>, job: Job)
    requires Renders(isV6, out, job.Output())
    ensures StrictlySorted(PrefixLess, out)
  {
    OutputInOrder(job);
    forall i, j | 0 <= i < j < |out|
      ensures PrefixLess(out[i], out[j])
    {
      var x, y := job.Output()[i], job.Output()[j];
      assert Before(x, y);
      PadBefore(x, y, BitLen(out[i].addr));
      BeforeIsLess(out[i].addr, out[j].addr);
    }
  }

  lemma PadBefore(x: Path, y: Path, w: nat)
    requires Before(x, y) && |x| <= w && |y| <= w
    ensures Before(Pad(x, w), Pad(y, w))
  {
    var k :| 0 <= k < |x| && k < |y| && x[..k] == y[..k] && !x[k] && y[k];
    assert Pad(x, w)[..k] == x[..k] && Pad(y, w)[..k] == y[..k];
    assert !Pad(x, w)[k] && Pad(y, w)[k];
  }

  /** A sorted listing of the two families' prefixes. */
  ghost predicate ResultOf(result: seq<Prefix>, addrs: seq<Addr>, threshold: real, maxPrefix: int) {
    && Sorted(PrefixLess, result)
    && exists v4, v6 ::
         && Renders(false, v4, FamilyJob(addrs, false, threshold, maxPrefix).Output())
         && Renders(true, v6, FamilyJob(addrs, true, threshold, maxPrefix).Output())
         && multiset(result) == multiset(v4 + v6)
  }

  method Aggregate(addrs: seq<Addr>, threshold: real, maxPrefix: int) returns (result: seq<Prefix>)
    ensures ResultOf(result, addrs, threshold, maxPrefix)
    ensures forall p :: p in result <==>
              || Emitted(false, FamilyJob(addrs, false, threshold, maxPrefix), p)
              || Emitted(true, FamilyJob(addrs, true, threshold, maxPrefix), p)
    ensures |result| == |FamilyJob(addrs, false, threshold, maxPrefix).Output()|
                      + |FamilyJob(addrs, true, threshold, maxPrefix).Output()|
    ensures Sorted(PrefixLess, result)
    ensures FamilyInputs(addrs, true) == {} ==>
              Renders(false, result, FamilyJob(addrs, false, threshold, maxPrefix).Output())
    ensures FamilyInputs(addrs, false) == {} ==>
              Renders(true, result, FamilyJob(addrs, true, threshold, maxPrefix).Output())
  {
    var v4addrs, v6addrs := [], [];
    for i := 0 to |addrs|
      invariant forall a :: a in v4addrs <==> a in addrs[..i] && a.V4?
      invariant forall a :: a in v6addrs <==> a in addrs[..i] && a.V6?
    {
      var addr := addrs[i];
      assert addrs[..i + 1] == addrs[..i] + [addr];
      if addr.Invalid? {
        continue;
      }
      if addr.V4? {
        v4addrs := v4addrs + [addr];
      } else if addr.V6? {
        v6addrs := v6addrs + [addr];
      }
    }
    assert addrs[..|addrs|] == addrs;
    assert FamilyInputs(v4addrs, false) == FamilyInputs(addrs, false);
    assert FamilyInputs(v6addrs, true) == FamilyInputs(addrs, true);

    var v4Prefixes, v6Prefixes := [], [];
    if |v4addrs| > 0 {
      v4Prefixes := AggregateFamily(v4addrs, false, threshold, maxPrefix);
    } else {
      NoInputsNoOutput(addrs, false, threshold, maxPrefix);
    }
    if |v6addrs| > 0 {
      v6Prefixes := AggregateFamily(v6addrs, true, threshold, maxPrefix);
    } else {
      NoInputsNoOutput(addrs, true, threshold, maxPrefix);
    }
    result := Sort(PrefixLess, v4Prefixes + v6Prefixes);
    ResultOfSort(addrs, threshold, maxPrefix, v4Prefixes, v6Prefixes, result);
  }

  lemma NoInputsNoOutput(addrs: seq<Addr>, isV6: bool, threshold: real, maxPrefix: int)
    requires FamilyInputs(addrs, isV6) == {}
    ensures FamilyJob(addrs, isV6, threshold, maxPrefix).Output() == []
  {
    var job := FamilyJob(addrs, isV6, threshold, maxPrefix);
    assert Under(job.inputs, []) == {};
    EmptyCollect(job, []);
  }

  lemma ResultOfSort(addrs: seq<Addr>, threshold: real, maxPrefix: int,
                     v4: seq<Prefix>, v6: seq<Prefix>, result: seq<Prefix>)
    requires Renders(false, v4, FamilyJob(addrs, false, threshold, maxPrefix).Output())
    requires Renders(true, v6, FamilyJob(addrs, true, threshold, maxPrefix).Output())
    requires result == Sort(PrefixLess, v4 + v6)
    ensures ResultOf(result, addrs, threshold, maxPrefix)
    ensures forall p :: p in result <==>
              || Emitted(false, FamilyJob(addrs, false, threshold, maxPrefix), p)
              || Emitted(true, FamilyJob(addrs, true, threshold, maxPrefix), p)
    ensures |result| == |v4| + |v6| && Sorted(PrefixLess, result)
    ensures FamilyInputs(addrs, true) == {} ==> result == v4
    ensures FamilyInputs(addrs, false) == {} ==> result == v6
  {
    var job4, job6 := FamilyJob(addrs, false, threshold, maxPrefix), FamilyJob(addrs, true, threshold, maxPrefix);
    AddrLessIsOrder();
    SortIsPermutation(PrefixLess, v4 + v6);
    SortSorts(PrefixLess, v4 + v6);
    SameElements(result, v4 + v6);
    forall p
      ensures p in result <==> Emitted(false, job4, p) || Emitted(true, job6, p)
    {
      RendersMembers(false, v4, job4, p);
      RendersMembers(true, v6, job6, p);
    }
    if FamilyInputs(addrs, true) == {} {
      NoInputsNoOutput(addrs, true, threshold, maxPrefix);
      assert v4 + v6 == v4;
      SortKeepsFamily(false, v4, job4, result);
    }
    if FamilyInputs(addrs, false) == {} {
      NoInputsNoOutput(addrs, false, threshold, maxPrefix);
      assert v4 + v6 == v6;
      SortKeepsFamily(true, v6, job6, result);
    }
  }

  /** On one family's output the final sort changes nothing. */
  lemma SortKeepsFamily(isV6: bool, out: seq<Prefix>, job: Job, result: seq<Prefix>)
    requires Renders(isV6, out, job.Output())
    requires multiset(result) == multiset(out) && Sorted(PrefixLess, result)
    ensures result == out
  {
    RendersSorted(isV6, out, job);
    SortedPermutationIsUnique(PrefixLess, out, result);
  }

  // --- determinism --------------------------------------------------------------

  /** Order and repetition of the inputs do not matter. */
  lemma OnlyTheSetMatters(xs: seq<Addr>, ys: seq<Addr>, isV6: bool, threshold: real, maxPrefix: int)
    requires forall a :: a in xs <==> a in ys
    ensures FamilyJob(xs, isV6, threshold, maxPrefix) == FamilyJob(ys, isV6, threshold, maxPrefix)
  {
    assert FamilyInputs(xs, isV6) == FamilyInputs(ys, isV6);
  }

  /** A family's output is determined by the job, down to the bytes. */
  lemma {:induction false} RendersUnique(isV6: bool, x: seq<Prefix>, y: seq<Prefix>, ps: seq<Path>)
    requires Renders(isV6, x, ps) && Renders(isV6, y, ps)
    ensures x == y
  {
    forall i | 0 <= i < |ps|
      ensures x[i] == y[i]
    {
      DenotesUnique(x[i], y[i], ps[i]);
    }
  }

  /** Order and repetition of the inputs do not change the result: the same prefixes as often, and with
      one family present, or no two prefixes at one address, the same list. */
  lemma AggregateDeterministic(xs: seq<Addr>, ys: seq<Addr>, threshold: real, maxPrefix: int,
                               rx: seq<Prefix>, ry: seq<Prefix>)
    requires forall a :: a in xs <==> a in ys
    ensures ResultOf(rx, xs, threshold, maxPrefix) && ResultOf(ry, ys, threshold, maxPrefix) ==>
              && multiset(rx) == multiset(ry)
              && (FamilyInputs(xs, false) == {} || FamilyInputs(xs, true) == {} ==> rx == ry)
              && (StrictlySorted(PrefixLess, rx) ==> rx == ry)
  {
    var job4, job6 := FamilyJob(xs, false, threshold, maxPrefix), FamilyJob(xs, true, threshold, maxPrefix);
    OnlyTheSetMatters(xs, ys, false, threshold, maxPrefix);
    OnlyTheSetMatters(xs, ys, true, threshold, maxPrefix);
    if ResultOf(rx, xs, threshold, maxPrefix) && ResultOf(ry, ys, threshold, maxPrefix) {
      var x4, x6 :| Renders(false, x4, job4.Output()) && Renders(true, x6, job6.Output())
                 && multiset(rx) == multiset(x4 + x6);
      var y4, y6 :| Renders(false, y4, job4.Output()) && Renders(true, y6, job6.Output())
                 && multiset(ry) == multiset(y4 + y6);
      RendersUnique(false, x4, y4, job4.Output());
      RendersUnique(true, x6, y6, job6.Output());
      if StrictlySorted(PrefixLess, rx) {
        SortedPermutationIsUnique(PrefixLess, rx, ry);
      }
      if FamilyInputs(xs, true) == {} {
        NoInputsNoOutput(xs, true, threshold, maxPrefix);
        assert x4 + x6 == x4;
        SortKeepsFamily(false, x4, job4, rx);
        SortKeepsFamily(false, x4, job4, ry);
      } else if FamilyInputs(xs, false) == {} {
        NoInputsNoOutput(xs, false, threshold, maxPrefix);
        assert x4 + x6 == x6;
        SortKeepsFamily(true, x6, job6, rx);
        SortKeepsFamily(true, x6, job6, ry);
      }
    }
  }

  /** Two trees holding the same addresses have the same shape and the same leaves. */
  lemma SameInputsSameTree(s: RadixTree, t: RadixTree, p: Path)
    requires s.Valid() && t.Valid() && s.isV6 == t.isV6 && s.inputs == t.inputs
    ensures p in s.at <==> p in t.at
    ensures p in s.at ==> s.at[p].isLeaf == t.at[p].isLeaf
    ensures p in s.at && s.at[p].isLeaf ==> s.at[p].prefix == t.at[p].prefix
    ensures p in s.at ==> (s.at[p].left == null <==> t.at[p].left == null)
    ensures p in s.at ==> (s.at[p].right == null <==> t.at[p].right == null)
  {
    assert KeyMatches(s.at.Keys, s.inputs, p) && KeyMatches(t.at.Keys, t.inputs, p);
    if p in s.at {
      assert s.LinkedAt(p) && t.LinkedAt(p);
      forall b: bool
        ensures p + [b] in s.at <==> p + [b] in t.at
      {
        assert KeyMatches(s.at.Keys, s.inputs, p + [b]) && KeyMatches(t.at.Keys, t.inputs, p + [b]);
      }
      if |p| == s.bits {
        assert s.LeafHolds(p) && t.LeafHolds(p);
        DenotesUnique(s.at[p].prefix, t.at[p].prefix, p);
      }
    }
  }

  // --- losslessness, on addresses and prefixes ------------------------------------

  /** netip.Prefix.Contains, for addresses of either family. */
  predicate PrefixContains(p: Prefix, a: Addr) {
    && !p.addr.Invalid? && !a.Invalid? && p.addr.V6? == a.V6?
    && 0 <= p.bits <= BitLen(a) && BitsOf(p.addr)[..p.bits] == BitsOf(a)[..p.bits]
  }

  lemma DenotedContains(p: Prefix, q: Path, a: Addr)
    requires Denotes(p, q) && !a.Invalid? && p.addr.V6? == a.V6?
    ensures PrefixContains(p, a) <==> Contains(q, BitsOf(a))
  {
    assert Pad(q, BitLen(p.addr))[..|q|] == q;
  }

  lemma InputBits(addrs: seq<Addr>, a: Addr)
    requires !a.Invalid?
    ensures BitsOf(a) in FamilyInputs(addrs, a.V6?) <==> a in addrs
  {
    if BitsOf(a) in FamilyInputs(addrs, a.V6?) {
      var b :| b in addrs && !b.Invalid? && b.V6? == a.V6? && BitsOf(b) == BitsOf(a);
      BitsDetermineAddr(a, b);
    }
  }

  /** What a family's part of the result covers. */
  lemma FamilyCovers(job: Job, a: Addr)
    requires !a.Invalid? && job.width == BitLen(a)
    ensures (exists p :: Emitted(a.V6?, job, p) && PrefixContains(p, a)) <==> job.Covered(BitsOf(a))
  {
    if p :| Emitted(a.V6?, job, p) && PrefixContains(p, a) {
      var q :| q in job.Output() && Denotes(p, q);
      DenotedContains(p, q, a);
      var i :| 0 <= i < |job.Output()| && job.Output()[i] == q;
    }
    if job.Covered(BitsOf(a)) {
      var i :| 0 <= i < |job.Output()| && Contains(job.Output()[i], BitsOf(a));
      var q := job.Output()[i];
      var p := Masked(Prefix(a, |q|));
      MaskedBits(Prefix(a, |q|));
      assert Denotes(p, q);
      DenotedContains(p, q, a);
      assert Emitted(a.V6?, job, p);
    }
  }

  // --- when a family is lossless -------------------------------------------------------

  /** Some prefix of the list contains the address. */
  ghost predicate Encloses(ps: seq<Prefix>, a: Addr) {
    exists p :: p in ps && PrefixContains(p, a)
  }

  lemma ResultCovers(addrs: seq<Addr>, maxPrefix: int, result: seq<Prefix>, a: Addr)
    requires forall p :: p in result <==>
               || Emitted(false, FamilyJob(addrs, false, 1.0, maxPrefix), p)
               || Emitted(true, FamilyJob(addrs, true, 1.0, maxPrefix), p)
    requires !a.Invalid?
    ensures Encloses(result, a) <==> FamilyJob(addrs, a.V6?, 1.0, maxPrefix).Covered(BitsOf(a))
  {
    var job := FamilyJob(addrs, a.V6?, 1.0, maxPrefix);
    FamilyCovers(job, a);
    if p :| p in result && PrefixContains(p, a) {
      assert Emitted(a.V6?, job, p);
    }
    if p :| Emitted(a.V6?, job, p) && PrefixContains(p, a) {
      assert p in result;
    }
  }

  /** At threshold 1, an address is in some result prefix exactly if it was an input; for IPv6 unless two
      inputs part where the shift overflows. */
  lemma AggregateLossless(addrs: seq<Addr>, maxPrefix: int, result: seq<Prefix>, a: Addr)
    requires forall p :: p in result <==>
               || Emitted(false, FamilyJob(addrs, false, 1.0, maxPrefix), p)
               || Emitted(true, FamilyJob(addrs, true, 1.0, maxPrefix), p)
    requires !a.Invalid?
    requires a.V6? ==> !PartsTooEarly(FamilyJob(addrs, true, 1.0, maxPrefix))
    ensures Encloses(result, a) <==> a in addrs
  {
    var job := FamilyJob(addrs, a.V6?, 1.0, maxPrefix);
    NotTooEarlyIsLossless(job);
    ResultCovers(addrs, maxPrefix, result, a);
    InputBits(addrs, a);
    assert job.Covered(BitsOf(a)) <==> BitsOf(a) in job.inputs;
  }

  lemma {:induction false} BytesOfPath(isV6: bool, p: Path) returns (bytes: Bytes16)
    requires |p| <= Width(isV6)
    ensures PathFrom(bytes, if isV6 then 0 else 12) == Pad(p, Width(isV6))
    decreases |p|
  {
    if p == [] {
      ZeroBytes(isV6);
      bytes := ZERO16;
    } else {
      var init, last := p[..|p| - 1], p[|p| - 1];
      bytes := BytesOfPath(isV6, init);
      ChildBytes(isV6, bytes, init);
      assert p == init + [last];
      if last {
        bytes := SetBitAt(bytes, if isV6 then 0 else 12, |init|);
      }
    }
  }

  /** Every full-length bit string belongs to an address. */
  lemma AddrOfPath(isV6: bool, p: Path) returns (a: Addr)
    requires |p| == Width(isV6)
    ensures !a.Invalid? && a.V6? == isV6 && BitsOf(a) == p
  {
    var bytes := BytesOfPath(isV6, p);
    MergedDenotes(isV6, bytes, p);
    a := MergedPrefix(isV6, bytes, |p|).addr;
    assert Pad(p, BitLen(a)) == p;
  }

  /** A family is lossless at threshold 1 in the result, address for address, exactly if no two of its
      inputs part where the shift overflows. */
  lemma AggregateLosslessIff(addrs: seq<Addr>, isV6: bool, maxPrefix: int, result: seq<Prefix>)
    requires forall p :: p in result <==>
               || Emitted(false, FamilyJob(addrs, false, 1.0, maxPrefix), p)
               || Emitted(true, FamilyJob(addrs, true, 1.0, maxPrefix), p)
    requires |FamilyInputs(addrs, isV6)| < SIGN_BIT
    ensures (forall a: Addr | !a.Invalid? && a.V6? == isV6 :: Encloses(result, a) <==> a in addrs)
       <==> !PartsTooEarly(FamilyJob(addrs, isV6, 1.0, maxPrefix))
  {
    var job := FamilyJob(addrs, isV6, 1.0, maxPrefix);
    forall a: Addr | !a.Invalid? && a.V6? == isV6
      ensures Encloses(result, a) <==> job.Covered(BitsOf(a))
      ensures a in addrs <==> BitsOf(a) in job.inputs
    {
      ResultCovers(addrs, maxPrefix, result, a);
      InputBits(addrs, a);
    }
    LosslessIff(job);
    if forall a: Addr | !a.Invalid? && a.V6? == isV6 :: Encloses(result, a) <==> a in addrs {
      forall p: Path | |p| == job.width
        ensures job.Covered(p) <==> p in job.inputs
      {
        var a := AddrOfPath(isV6, p);
        assert Encloses(result, a) <==> a in addrs;
      }
      assert CoversExactly(job.width, job.Output(), job.inputs);
    } else {
      var a: Addr :| !a.Invalid? && a.V6? == isV6 && Encloses(result, a) != (a in addrs);
      assert job.Covered(BitsOf(a)) != (BitsOf(a) in job.inputs);
    }
  }
}
