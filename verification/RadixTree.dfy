/** The mutable binary tree of pkg/cidr/tree.go. */
module RadixTree {
  import opened BitPaths
  import opened Density
  import opened Aggregation
  import opened NetIP

  lemma ChildInjective(q: Path, b: bool, p: Path, c: bool)
    ensures q + [b] == p + [c] <==> q == p && b == c
  {
    if q + [b] == p + [c] {
      assert (q + [b])[..|q|] == (p + [c])[..|p|];
      assert (q + [b])[|q|] == (p + [c])[|p|];
    }
  }

  /** The prefixes of a path up to length d. */
  ghost function Prefixes(path: Path, d: nat): set<Path>
    requires d <= |path|
  {
    set k | 0 <= k <= d :: path[..k]
  }

  lemma LongerPrefix(path: Path, d: nat)
    requires d < |path|
    ensures path[..d + 1] == path[..d] + [path[d]]
    ensures Prefixes(path, d + 1) == Prefixes(path, d) + {path[..d + 1]}
  {
  }

  lemma AllPrefixes(path: Path, p: Path)
    ensures p in Prefixes(path, |path|) <==> Contains(p, path)
  {
    if Contains(p, path) {
      assert path[..|p|] in Prefixes(path, |path|);
    }
  }

  lemma CountInsert(s: set<Path>, a: Path, p: Path)
    ensures Count(s + {a}, p) > 0 <==> Count(s, p) > 0 || Contains(p, a)
  {
    if Count(s, p) > 0 {
      var b :| b in Under(s, p);
      assert b in Under(s + {a}, p);
    }
    if Contains(p, a) {
      assert a in Under(s + {a}, p);
    }
    if Count(s + {a}, p) > 0 {
      var b :| b in Under(s + {a}, p);
      assert b == a || b in Under(s, p);
    }
  }

  lemma HostPrefix(addr: Addr)
    requires !addr.Invalid?
    ensures Denotes(Prefix(addr, BitLen(addr)), BitsOf(addr))
  {
  }

  ghost predicate KeyMatches(keys: set<Path>, inputs: set<Path>, p: Path) {
    p in keys <==> p == [] || Count(inputs, p) > 0
  }

  /** The keys are the root and the paths that hold an input. */
  ghost predicate KeysMatch(keys: set<Path>, inputs: set<Path>) {
    forall p {:trigger KeyMatches(keys, inputs, p)} :: KeyMatches(keys, inputs, p)
  }

  lemma KeysAfterInsert(keys: set<Path>, inputs: set<Path>, path: Path)
    requires KeysMatch(keys, inputs)
    ensures KeysMatch(keys + Prefixes(path, |path|), inputs + {path})
  {
    forall p
      ensures KeyMatches(keys + Prefixes(path, |path|), inputs + {path}, p)
    {
      AllPrefixes(path, p);
      CountInsert(inputs, path, p);
      assert KeyMatches(keys, inputs, p);
    }
  }

  function Width(isV6: bool): nat {
    if isV6 then 128 else 32
  }

  class RadixNode {
    var left: RadixNode?
    var right: RadixNode?
    var isLeaf: bool
    var prefix: Prefix
    /** Where in the tree this node belongs. */
    ghost const path: Path

    constructor (ghost path: Path)
      ensures this.path == path
      ensures left == null && right == null && !isLeaf
    {
      this.path := path;
      left, right, isLeaf := null, null, false;
      prefix := Prefix(Invalid, 0);
    }
  }

  class RadixTree {
    var root: RadixNode
    const bits: nat
    const isV6: bool

    /** The node at each path that has one, and the bits of the inserted addresses. */
    ghost var at: map<Path, RadixNode>
    ghost var inputs: set<Path>

    ghost function Nodes(): set<RadixNode>
      reads `at
    {
      at.Values
    }

    ghost function NodeAt(p: Path): RadixNode?
      reads `at
    {
      if p in at then at[p] else null
    }

    /** The fields of the node at p point to the nodes at p's two children. */
    ghost predicate LinkedAt(p: Path)
      requires p in at
      reads `at, Nodes()`left, Nodes()`right
    {
      at[p].left == NodeAt(p + [false]) && at[p].right == NodeAt(p + [true])
    }

    ghost predicate HasParent(p: Path)
      reads `at
    {
      p != [] ==> p[..|p| - 1] in at
    }

    /** The nodes reachable from the root are exactly those in `at`, each at its own path. */
    ghost predicate Linked()
      reads `root, `at, Nodes()`left, Nodes()`right
    {
      && [] in at && at[[]] == root
      && (forall p | p in at :: |p| <= bits && at[p].path == p)
      && (forall p {:trigger HasParent(p)} | p in at :: HasParent(p))
      && (forall p {:trigger LinkedAt(p)} | p in at :: LinkedAt(p))
    }

    ghost predicate LeafHolds(p: Path)
      reads `at, Nodes()`isLeaf, Nodes()`prefix
    {
      p in at ==> at[p].isLeaf && Denotes(at[p].prefix, p) && at[p].prefix.addr.V4? == !isV6
    }

    /** Inner nodes are not leaves; the nodes of `keys` at full depth are. */
    ghost predicate LeavesHold(keys: set<Path>)
      reads `at, Nodes()`isLeaf, Nodes()`prefix
    {
      && (forall p | p in at && |p| < bits :: !at[p].isLeaf)
      && (forall p | p in keys && |p| == bits :: LeafHolds(p))
    }

    ghost predicate Valid()
      reads this, Nodes()
    {
      && bits == Width(isV6)
      && Linked()
      && OfWidth(inputs, bits)
      && LeavesHold(at.Keys)
      && KeysMatch(at.Keys, inputs)
    }

    /** newRadixTree */
    constructor (isV6: bool)
      ensures Valid() && this.isV6 == isV6 && inputs == {}
      ensures fresh(Nodes())
    {
      this.isV6 := isV6;
      bits := Width(isV6);
      var node := new RadixNode([]);
      root := node;
      at := map[[] := node];
      inputs := {};
    }

    /** insert: walk down by the address bits, adding the missing nodes, and mark the leaf. */
    method Insert(addr: Addr)
      requires Valid()
      requires addr.Invalid? || addr.V6? == isV6
      modifies this`at, this`inputs, Nodes()
      ensures Valid()
      ensures inputs == if addr.Invalid? then old(inputs) else old(inputs) + {BitsOf(addr)}
      ensures fresh(Nodes() - old(Nodes()))
    {
      if addr.Invalid? {
        return;
      }
      var prefixLen := if addr.V6? then 128 else 32;
      var prefix := Prefix(addr, prefixLen);
      var byteOffset := if addr.V4? then 12 else 0;
      HostPrefix(addr);
      InsertPath(As16(addr), byteOffset, prefixLen, prefix, BitsOf(addr));
    }

    /** insert, for the address whose bits are `path`. */
    method InsertPath(bytes: Bytes16, byteOffset: nat, prefixLen: nat, prefix: Prefix, ghost path: Path)
      requires Valid()
      requires byteOffset + prefixLen / 8 == 16 && prefixLen == bits == |path|
      requires path == PathFrom(bytes, byteOffset)
      requires Denotes(prefix, path) && prefix.addr.V4? == !isV6
      modifies `at, `inputs, Nodes()
      ensures Valid() && inputs == old(inputs) + {path}
      ensures fresh(Nodes() - old(Nodes()))
    {
      var node := Walk(bytes, byteOffset, prefixLen, path);
      LeavesKept(path, node);
      KeysAfterInsert(old(at.Keys), inputs, path);
      assert at.Keys == old(at.Keys) + Prefixes(path, |path|);
      NewNodesFresh(old(at));
      MarkLeaf(node, prefix, path, old(at));
    }

    twostate lemma NewNodesFresh(before: map<Path, RadixNode>)
      requires before == old(at)
      requires forall p | p in before :: p in at && at[p] == before[p]
      requires forall p | p in at && p !in before :: fresh(at[p])
      ensures fresh(Nodes() - old(Nodes()))
    {
      forall n | n in Nodes() && n !in old(Nodes())
        ensures fresh(n)
      {
        var p :| p in at && at[p] == n;
        assert p !in before;
      }
    }

    /** The walk itself touches no leaf. */
    twostate lemma LeavesKept(path: Path, new node: RadixNode)
      requires old(LeavesHold(at.Keys)) && Walked(old(at), path, bits, node)
      requires forall n | n in old(Nodes()) :: n.isLeaf == old(n.isLeaf) && n.prefix == old(n.prefix)
      ensures LeavesHold(old(at.Keys))
    {
      forall p | p in old(at) && |p| == bits
        ensures LeafHolds(p)
      {
        assert old(LeafHolds(p));
      }
    }

    /** After d steps towards `path`, from a tree that had the nodes `before`. */
    ghost predicate Walked(before: map<Path, RadixNode>, path: Path, d: nat, node: RadixNode)
      reads this, Nodes()
    {
      && d <= |path| == bits
      && Linked()
      && at.Keys == before.Keys + Prefixes(path, d)
      && NodeAt(path[..d]) == node
      && (forall p | p in before :: at[p] == before[p])
      && (forall p | p in at && p !in before :: !at[p].isLeaf)
    }

    /** The loop of insert: from the root down to the node for the address in `bytes`. */
    method Walk(bytes: Bytes16, byteOffset: nat, prefixLen: nat, ghost path: Path) returns (node: RadixNode)
      requires byteOffset + prefixLen / 8 == 16 && prefixLen == bits == |path|
      requires path == PathFrom(bytes, byteOffset)
      requires Linked()
      modifies `at, Nodes()`left, Nodes()`right
      ensures Walked(old(at), path, bits, node)
      ensures forall p | p in at && p !in old(at) :: fresh(at[p])
    {
      node := root;
      ghost var before := at;
      var depth := 0;
      while depth < prefixLen
        invariant depth <= prefixLen
        invariant Walked(before, path, depth, node)
        invariant forall p | p in at && p !in before :: fresh(at[p])
      {
        var byteIdx := byteOffset + depth / 8;
        var bitIdx := 7 - depth % 8;
        var bit := BitSet(bytes[byteIdx], bitIdx);
        assert bit == path[depth];
        node := Step(node, bit, before, path, depth);
        depth := depth + 1;
      }
    }

    /** The walk's invariant survives one step. */
    method Step(node: RadixNode, bit: bool, ghost before: map<Path, RadixNode>, ghost path: Path, ghost d: nat)
      returns (child: RadixNode)
      requires Walked(before, path, d, node) && d < bits && bit == path[d]
      modifies `at, node`left, node`right
      ensures Walked(before, path, d + 1, child)
      ensures forall p | p in at && p !in old(at) :: fresh(at[p])
      ensures forall p | p in old(at) :: p in at && at[p] == old(at)[p]
    {
      LongerPrefix(path, d);
      child := Descend(node, bit, path[..d]);
    }

    /** The walk has reached depth `bits`: the node there becomes a leaf. */
    method MarkLeaf(node: RadixNode, prefix: Prefix, ghost path: Path, ghost before: map<Path, RadixNode>)
      requires Walked(before, path, bits, node) && LeavesHold(before.Keys)
      requires Denotes(prefix, path) && prefix.addr.V4? == !isV6
      requires bits == Width(isV6) && OfWidth(inputs, bits)
      requires KeysMatch(at.Keys, inputs + {path})
      modifies `inputs, node`isLeaf, node`prefix
      ensures Valid() && inputs == old(inputs) + {path}
    {
      assert path[..bits] == path && path in Prefixes(path, bits);
      node.isLeaf := true;
      node.prefix := prefix;
      inputs := inputs + {path};
      forall p | p in at
        ensures if |p| == bits then LeafHolds(p) else !at[p].isLeaf
      {
        assert at[p].path == p;
        if |p| == bits && p != path {
          AllPrefixes(path, p);
          assert old(LeafHolds(p));
        }
      }
    }

    /** A missing child, on the side of `bit`. */
    method AddChild(node: RadixNode, bit: bool, ghost p: Path)
      requires Linked() && p in at && at[p] == node && |p| < bits && p + [bit] !in at
      modifies this`at, node`left, node`right
      ensures Linked()
      ensures at.Keys == old(at.Keys) + {p + [bit]}
      ensures forall q | q in old(at) :: at[q] == old(at)[q]
      ensures fresh(at[p + [bit]]) && !at[p + [bit]].isLeaf
    {
      assert LinkedAt(p);
      var child := new RadixNode(p + [bit]);
      if bit {
        node.right := child;
      } else {
        node.left := child;
      }
      at := at[p + [bit] := child];
      forall q | q in at
        ensures LinkedAt(q) && HasParent(q)
      {
        ChildInjective(q, false, p, bit);
        ChildInjective(q, true, p, bit);
        if q == p + [bit] {
          forall b: bool
            ensures q + [b] !in at
          {
            ChildInjective(q, b, p, bit);
            assert q + [b] in old(at) ==> old(HasParent(q + [b]));
          }
        } else {
          assert old(LinkedAt(q)) && old(HasParent(q));
        }
      }
    }

    /** One step of the walk: the child on the side of `bit`, created if missing. */
    method Descend(node: RadixNode, bit: bool, ghost p: Path) returns (child: RadixNode)
      requires Linked() && p in at && at[p] == node && |p| < bits
      modifies this`at, node`left, node`right
      ensures Linked()
      ensures at.Keys == old(at.Keys) + {p + [bit]} && at[p + [bit]] == child
      ensures forall q | q in old(at) :: at[q] == old(at)[q]
      ensures p + [bit] !in old(at) ==> fresh(child) && !child.isLeaf
    {
      assert LinkedAt(p);
      if !bit {
        if node.left == null {
          AddChild(node, bit, p);
          assert LinkedAt(p);
        }
        child := node.left;
      } else {
        if node.right == null {
          AddChild(node, bit, p);
          assert LinkedAt(p);
        }
        child := node.right;
      }
    }

    /** countLeavesRecursive: the number of inputs below a node. */
    function CountLeaves(node: RadixNode?, ghost p: Path): (n: nat)
      requires Valid() && |p| <= bits && node == NodeAt(p)
      reads this, Nodes()
      ensures n == Count(inputs, p)
      decreases bits - |p|
    {
      NodeMeaning(p);
      if node == null then 0
      else if node.isLeaf then 1
      else CountLeaves(node.left, p + [false]) + CountLeaves(node.right, p + [true])
    }

    /** What a node, or its absence, says about the inputs below it. */
    lemma NodeMeaning(p: Path)
      requires Valid() && |p| <= bits
      ensures NodeAt(p) == null ==> Count(inputs, p) == 0
      ensures p in at ==> (at[p].isLeaf <==> |p| == bits) && LinkedAt(p)
      ensures p in at && |p| == bits ==> Count(inputs, p) == 1 && p in inputs && LeafHolds(p)
      ensures |p| < bits ==> Count(inputs, p) == Count(inputs, p + [false]) + Count(inputs, p + [true])
    {
      assert KeyMatches(at.Keys, inputs, p);
      if |p| == bits {
        UnderLeaf(bits, inputs, p);
      } else {
        UnderSplit(bits, inputs, p);
      }
    }

    ghost function Job(threshold: real, maxPrefix: int): Job
      reads this
    {
      Aggregation.Job(bits, inputs, threshold, maxPrefix)
    }

    /** collectPrefixes: `addrBytes` holds the bits of p, followed by zeros. */
    function CollectPrefixes(node: RadixNode?, depth: nat, addrBytes: Bytes16, threshold: real, maxPrefix: int,
                             ghost p: Path): (out: seq<Prefix>)
      requires Valid() && depth == |p| <= bits && node == NodeAt(p)
      requires PathFrom(addrBytes, if isV6 then 0 else 12) == Pad(p, bits)
      reads this, Nodes()
      ensures Renders(isV6, out, Job(threshold, maxPrefix).Collect(p))
      decreases bits - depth
    {
      NodeMeaning(p);
      ghost var job := Job(threshold, maxPrefix);
      if node == null then
        EmptyRenders(isV6, job, p);
        []
      else if node.isLeaf then
        LeafRenders(isV6, node.prefix, job, p);
        [node.prefix]
      else
        var leftBytes := addrBytes;
        var rightBytes := SetBitAt(addrBytes, if isV6 then 0 else 12, depth);
        ChildBytes(isV6, addrBytes, p);
        var leftPrefixes := CollectPrefixes(node.left, depth + 1, leftBytes, threshold, maxPrefix, p + [false]);
        var rightPrefixes := CollectPrefixes(node.right, depth + 1, rightBytes, threshold, maxPrefix, p + [true]);
        var leftCount := CountLeaves(node.left, p + [false]);
        var rightCount := CountLeaves(node.right, p + [true]);
        var totalCount := leftCount + rightCount;
        if totalCount == 0 then
          EmptyRenders(isV6, job, p);
          []
        else if leftCount == 0 || rightCount == 0 then
          OneSided(job, p);
          BothRender(isV6, leftPrefixes, rightPrefixes, job, p);
          leftPrefixes + rightPrefixes
        else
          var canMerge := CanMerge(bits, depth, totalCount, threshold, maxPrefix);
          DecisionIsEligible(job, p, leftCount, rightCount, depth, totalCount, canMerge);
          if canMerge then
            MergedRenders(isV6, addrBytes, job, p);
            [MergedPrefix(isV6, addrBytes, depth)]
          else
            BothRender(isV6, leftPrefixes, rightPrefixes, job, p);
            leftPrefixes + rightPrefixes
    }

    /** aggregate */
    function Aggregate(threshold: real, maxPrefix: int): (out: seq<Prefix>)
      requires Valid()
      reads this, Nodes()
      ensures Renders(isV6, out, Job(threshold, maxPrefix).Output())
    {
      ZeroBytes(isV6);
      CollectPrefixes(root, 0, ZERO16, threshold, maxPrefix, [])
    }
  }

  /** `out` lists the netip form of the paths `ps`, in the same order. */
  ghost predicate Renders(isV6: bool, out: seq<Prefix>, ps: seq<Path>) {
    && |out| == |ps|
    && forall i | 0 <= i < |out| :: Denotes(out[i], ps[i]) && out[i].addr.V6? == isV6
  }

  lemma {:induction false} EmptyCollect(job: Job, p: Path)
    requires job.Valid() && |p| <= job.width && Count(job.inputs, p) == 0
    ensures job.Collect(p) == []
    decreases job.width - |p|
  {
    if |p| == job.width {
      UnderLeaf(job.width, job.inputs, p);
    } else {
      UnderSplit(job.width, job.inputs, p);
      EmptyCollect(job, p + [false]);
      EmptyCollect(job, p + [true]);
    }
  }

  /** The bytes handed to the two children are those of the children's paths. */
  lemma ChildBytes(isV6: bool, addrBytes: Bytes16, p: Path)
    requires |p| < Width(isV6)
    requires PathFrom(addrBytes, if isV6 then 0 else 12) == Pad(p, Width(isV6))
    ensures Pad(p + [false], Width(isV6)) == Pad(p, Width(isV6))
    ensures PathFrom(SetBitAt(addrBytes, if isV6 then 0 else 12, |p|), if isV6 then 0 else 12)
         == Pad(p + [true], Width(isV6))
  {
    SetBitAtSets(addrBytes, if isV6 then 0 else 12, |p|);
    assert Pad(p + [true], Width(isV6)) == Pad(p, Width(isV6))[|p| := true];
  }

  lemma ZeroBytes(isV6: bool)
    ensures PathFrom(ZERO16, if isV6 then 0 else 12) == Pad([], Width(isV6))
  {
    var off := if isV6 then 0 else 12;
    forall d | 0 <= d < Width(isV6)
      ensures !BitAt(ZERO16, off, d)
    {
      ZeroBit(7 - d % 8);
    }
  }

  lemma ZeroBit(k: nat)
    requires k < 8
    ensures !BitSet(0, k)
  {
  }

  /** The merge condition of collectPrefixes, for a node with inputs on both sides. */
  predicate CanMerge(bits: nat, depth: nat, totalCount: nat, threshold: real, maxPrefix: int)
    requires depth <= bits && totalCount > 0
  {
    var maxPossible := ShiftInt64(bits - depth);
    depth > 0 && depth >= maxPrefix && RatioReaches(totalCount, maxPossible, threshold)
  }

  lemma OneSided(job: Job, p: Path)
    requires |p| < job.width && (Count(job.inputs, p + [false]) == 0 || Count(job.inputs, p + [true]) == 0)
    ensures !job.Eligible(p)
  {
  }

  lemma DecisionIsEligible(job: Job, p: Path, leftCount: nat, rightCount: nat, depth: nat, totalCount: nat,
                           canMerge: bool)
    requires job.Valid() && depth == |p| < job.width && totalCount == leftCount + rightCount
    requires leftCount == Count(job.inputs, p + [false]) > 0 && rightCount == Count(job.inputs, p + [true]) > 0
    requires canMerge == CanMerge(job.width, depth, totalCount, job.threshold, job.maxPrefix)
    ensures canMerge <==> job.Eligible(p)
  {
    UnderSplit(job.width, job.inputs, p);
  }

  lemma EmptyRenders(isV6: bool, job: Job, p: Path)
    requires job.Valid() && |p| <= job.width && Count(job.inputs, p) == 0
    ensures Renders(isV6, [], job.Collect(p))
  {
    EmptyCollect(job, p);
  }

  lemma LeafRenders(isV6: bool, prefix: Prefix, job: Job, p: Path)
    requires |p| == job.width && p in job.inputs
    requires Denotes(prefix, p) && prefix.addr.V6? == isV6
    ensures Renders(isV6, [prefix], job.Collect(p))
  {
    assert job.Collect(p) == [p];
  }

  lemma MergedRenders(isV6: bool, addrBytes: Bytes16, job: Job, p: Path)
    requires job.Eligible(p) && |p| < job.width == Width(isV6)
    requires PathFrom(addrBytes, if isV6 then 0 else 12) == Pad(p, Width(isV6))
    ensures Renders(isV6, [MergedPrefix(isV6, addrBytes, |p|)], job.Collect(p))
  {
    MergedDenotes(isV6, addrBytes, p);
    assert job.Collect(p) == [p];
  }

  lemma BothRender(isV6: bool, left: seq<Prefix>, right: seq<Prefix>, job: Job, p: Path)
    requires |p| < job.width && !job.Eligible(p)
    requires Renders(isV6, left, job.Collect(p + [false])) && Renders(isV6, right, job.Collect(p + [true]))
    ensures Renders(isV6, left + right, job.Collect(p))
  {
    RendersConcat(isV6, left, job.Collect(p + [false]), right, job.Collect(p + [true]));
  }

  lemma RendersConcat(isV6: bool, xs: seq<Prefix>, ps: seq<Path>, ys: seq<Prefix>, qs: seq<Path>)
    requires Renders(isV6, xs, ps) && Renders(isV6, ys, qs)
    ensures Renders(isV6, xs + ys, ps + qs)
  {
    forall i | 0 <= i < |xs + ys|
      ensures Denotes((xs + ys)[i], (ps + qs)[i]) && (xs + ys)[i].addr.V6? == isV6
    {
      if i < |xs| {
        assert (xs + ys)[i] == xs[i] && (ps + qs)[i] == ps[i];
      } else {
        assert (xs + ys)[i] == ys[i - |xs|] && (ps + qs)[i] == qs[i - |xs|];
      }
    }
  }

  /** The prefix a merge emits. */
  function MergedPrefix(isV6: bool, addrBytes: Bytes16, depth: nat): Prefix {
    var addr := if isV6 then V6(addrBytes) else V4(addrBytes[12..16]);
    var prefix := Prefix(addr, depth);
    Masked(prefix)
  }

  /** The walk's address bytes already are the merged prefix: Masked changes nothing. */
  lemma MergedDenotes(isV6: bool, addrBytes: Bytes16, p: Path)
    requires |p| <= Width(isV6)
    requires PathFrom(addrBytes, if isV6 then 0 else 12) == Pad(p, Width(isV6))
    ensures var merged := MergedPrefix(isV6, addrBytes, |p|);
            && Denotes(merged, p) && merged.addr.V6? == isV6
            && merged.addr == if isV6 then V6(addrBytes) else V4(addrBytes[12..16])
  {
    var addr := if isV6 then V6(addrBytes) else V4(addrBytes[12..16]);
    var w := BitLen(addr);
    assert forall d | 0 <= d < w :: BitAt(As16(addr), ByteOffset(addr), d) == BitAt(addrBytes, ByteOffset(addr), d);
    assert BitsOf(addr) == Pad(p, w);
    assert Pad(p, w)[..|p|] == p;
    MaskedUnchangedIff(Prefix(addr, |p|));
  }
}
