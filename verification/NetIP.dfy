/** The part of Go's net/netip that the aggregation relies on: addresses as bytes. */
module NetIP {
  import opened BitPaths
  import Sorting

  type Bytes4 = s: seq<bv8> | |s| == 4 witness [0, 0, 0, 0]
  type Bytes16 = s: seq<bv8> | |s| == 16 witness ZERO16

  const ZERO16: seq<bv8> := [0, 0, 0, 0, 0, 0, 0, 0, 0, 0, 0, 0, 0, 0, 0, 0]

  datatype Addr = Invalid | V4(b4: Bytes4) | V6(b16: Bytes16)

  datatype Prefix = Prefix(addr: Addr, bits: int)

  /** Addr.As16: an IPv4 address sits in bytes 12 to 15 of its IPv6-mapped form. */
  function As16(a: Addr): Bytes16 {
    match a
    case Invalid => ZERO16
    case V4(b) => [0, 0, 0, 0, 0, 0, 0, 0, 0, 0, 0xff, 0xff] + b
    case V6(b) => b
  }

  function BitLen(a: Addr): nat {
    match a
    case Invalid => 0
    case V4(_) => 32
    case V6(_) => 128
  }

  /** Index in As16 of the byte holding an address's first bit. */
  function ByteOffset(a: Addr): nat {
    if a.V4? then 12 else 0
  }

  // --- bits of bytes -----------------------------------------------------------

  predicate BitSet(b: bv8, k: nat)
    requires k < 8
  {
    (b >> k) & 1 == 1
  }

  function WithBit(b: bv8, k: nat): bv8
    requires k < 8
  {
    b | (1 << k)
  }

  /** b with only its top `keep` bits left. */
  function KeepTop(b: bv8, keep: int): bv8 {
    if keep >= 8 then b else if keep <= 0 then 0 else b & (0xff << (8 - keep))
  }

  /** Bit d, counted from the top of byte `off`. */
  predicate BitAt(bytes: seq<bv8>, off: nat, d: nat)
    requires off + d / 8 < |bytes|
  {
    BitSet(bytes[off + d / 8], 7 - d % 8)
  }

  /** The bits of `bytes` from byte `off` on. */
  function PathFrom(bytes: seq<bv8>, off: nat): (p: Path)
    requires off <= |bytes|
    ensures |p| == 8 * (|bytes| - off)
  {
    seq(8 * (|bytes| - off), d requires 0 <= d < 8 * (|bytes| - off) => BitAt(bytes, off, d))
  }

  function BitsOf(a: Addr): (p: Path)
    requires !a.Invalid?
    ensures |p| == BitLen(a)
  {
    PathFrom(As16(a), ByteOffset(a))
  }

  lemma WithBitSets(b: bv8, k: nat, j: nat)
    requires k < 8 && j < 8
    ensures BitSet(WithBit(b, k), j) <==> j == k || BitSet(b, j)
  {
    if k == 0 { } else if k == 1 { } else if k == 2 { } else if k == 3 { }
    else if k == 4 { } else if k == 5 { } else if k == 6 { }
    if j == 0 { } else if j == 1 { } else if j == 2 { } else if j == 3 { }
    else if j == 4 { } else if j == 5 { } else if j == 6 { }
  }

  lemma KeepTopBits(b: bv8, keep: int, d: nat)
    requires d < 8
    ensures BitSet(KeepTop(b, keep), 7 - d) <==> d < keep && BitSet(b, 7 - d)
  {
    if d == 0 { } else if d == 1 { } else if d == 2 { } else if d == 3 { }
    else if d == 4 { } else if d == 5 { } else if d == 6 { }
    if keep == 1 { } else if keep == 2 { } else if keep == 3 { } else if keep == 4 { }
    else if keep == 5 { } else if keep == 6 { } else if keep == 7 { }
  }

  lemma SameBitsSameByte(x: bv8, y: bv8)
    requires forall d | 0 <= d < 8 :: BitSet(x, d) <==> BitSet(y, d)
    ensures x == y
  {
    assert BitSet(x, 0) <==> BitSet(y, 0);
    assert BitSet(x, 1) <==> BitSet(y, 1);
    assert BitSet(x, 2) <==> BitSet(y, 2);
    assert BitSet(x, 3) <==> BitSet(y, 3);
    assert BitSet(x, 4) <==> BitSet(y, 4);
    assert BitSet(x, 5) <==> BitSet(y, 5);
    assert BitSet(x, 6) <==> BitSet(y, 6);
    assert BitSet(x, 7) <==> BitSet(y, 7);
  }

  /** The byte whose first differing bit (from the top) is 0 is the smaller one. */
  lemma FirstBitDecides(x: bv8, y: bv8, d: nat)
    requires d < 8 && !BitSet(x, 7 - d) && BitSet(y, 7 - d)
    requires forall k | 7 - d < k < 8 :: BitSet(x, k) <==> BitSet(y, k)
    ensures x < y
  {
    var n := 7 - d;
    assert n < 7 ==> (BitSet(x, 7) <==> BitSet(y, 7));
    assert n < 6 ==> (BitSet(x, 6) <==> BitSet(y, 6));
    assert n < 5 ==> (BitSet(x, 5) <==> BitSet(y, 5));
    assert n < 4 ==> (BitSet(x, 4) <==> BitSet(y, 4));
    assert n < 3 ==> (BitSet(x, 3) <==> BitSet(y, 3));
    assert n < 2 ==> (BitSet(x, 2) <==> BitSet(y, 2));
    assert n < 1 ==> (BitSet(x, 1) <==> BitSet(y, 1));
    if n == 7 {
      assert !BitSet(x, 7) && BitSet(y, 7);
    } else if n == 6 {
      assert !BitSet(x, 6) && BitSet(y, 6);
    } else if n == 5 {
      assert !BitSet(x, 5) && BitSet(y, 5);
    } else if n == 4 {
      assert !BitSet(x, 4) && BitSet(y, 4);
    } else if n == 3 {
      assert !BitSet(x, 3) && BitSet(y, 3);
    } else if n == 2 {
      assert !BitSet(x, 2) && BitSet(y, 2);
    } else if n == 1 {
      assert !BitSet(x, 1) && BitSet(y, 1);
    } else {
      assert !BitSet(x, 0) && BitSet(y, 0);
    }
  }

  /** bytes[off + d / 8] |= 1 << (7 - d % 8) */
  function SetBitAt(bytes: seq<bv8>, off: nat, d: nat): (r: seq<bv8>)
    requires off + d / 8 < |bytes|
    ensures |r| == |bytes|
  {
    bytes[off + d / 8 := WithBit(bytes[off + d / 8], 7 - d % 8)]
  }

  lemma SetBitAtSets(bytes: seq<bv8>, off: nat, d: nat)
    requires off + d / 8 < |bytes|
    ensures PathFrom(SetBitAt(bytes, off, d), off) == PathFrom(bytes, off)[d := true]
  {
    var r := SetBitAt(bytes, off, d);
    forall e | 0 <= e < 8 * (|bytes| - off)
      ensures BitAt(r, off, e) <==> e == d || BitAt(bytes, off, e)
    {
      if e / 8 == d / 8 {
        WithBitSets(bytes[off + d / 8], 7 - d % 8, 7 - e % 8);
      }
    }
  }

  lemma PathFromInjective(x: seq<bv8>, y: seq<bv8>, off: nat, i: nat)
    requires off <= i < |x| == |y|
    requires forall d | 8 * (i - off) <= d < 8 * (i - off) + 8 :: PathFrom(x, off)[d] == PathFrom(y, off)[d]
    ensures x[i] == y[i]
  {
    forall k | 0 <= k < 8
      ensures BitSet(x[i], k) <==> BitSet(y[i], k)
    {
      var d := 8 * (i - off) + 7 - k;
      assert d / 8 == i - off && 7 - d % 8 == k;
      assert PathFrom(x, off)[d] == PathFrom(y, off)[d];
    }
    SameBitsSameByte(x[i], y[i]);
  }

  /** An address is determined by its family and its bits. */
  lemma BitsDetermineAddr(a: Addr, b: Addr)
    requires !a.Invalid? && a.V4? == b.V4? && !b.Invalid? && BitsOf(a) == BitsOf(b)
    ensures a == b
  {
    var x, y, off := As16(a), As16(b), ByteOffset(a);
    forall i | off <= i < 16
      ensures x[i] == y[i]
    {
      PathFromInjective(x, y, off, i);
    }
    if a.V4? {
      assert forall i | 0 <= i < 4 :: a.b4[i] == x[12 + i] && b.b4[i] == y[12 + i];
    }
  }

  // --- Prefix.Masked -------------------------------------------------------------

  function MaskBytes(b: seq<bv8>, bits: int): (r: seq<bv8>)
    ensures |r| == |b|
  {
    seq(|b|, i requires 0 <= i < |b| => KeepTop(b[i], bits - 8 * i))
  }

  /** Prefix.Masked: clears the address bits after the prefix length. */
  function Masked(p: Prefix): Prefix {
    if p.addr.Invalid? || p.bits < 0 || p.bits > BitLen(p.addr) then Prefix(Invalid, -1)
    else if p.addr.V4? then Prefix(V4(MaskBytes(p.addr.b4, p.bits)), p.bits)
    else Prefix(V6(MaskBytes(p.addr.b16, p.bits)), p.bits)
  }

  lemma MaskedByteBit(x: seq<bv8>, y: seq<bv8>, b: seq<bv8>, off: nat, bits: int, d: nat)
    requires off + d / 8 < |x| == |y| && d / 8 < |b|
    requires x[off + d / 8] == b[d / 8] && y[off + d / 8] == MaskBytes(b, bits)[d / 8]
    ensures BitAt(y, off, d) <==> d < bits && BitAt(x, off, d)
  {
    KeepTopBits(b[d / 8], bits - 8 * (d / 8), d % 8);
  }

  lemma MaskedBits(p: Prefix)
    requires !p.addr.Invalid? && 0 <= p.bits <= BitLen(p.addr)
    ensures !Masked(p).addr.Invalid? && BitLen(Masked(p).addr) == BitLen(p.addr)
    ensures BitsOf(Masked(p).addr) == Pad(BitsOf(p.addr)[..p.bits], BitLen(p.addr))
  {
    var off := ByteOffset(p.addr);
    var x, y := As16(p.addr), As16(Masked(p).addr);
    var b := if p.addr.V4? then p.addr.b4 else p.addr.b16;
    assert forall i | 0 <= i < |b| :: x[off + i] == b[i] && y[off + i] == MaskBytes(b, p.bits)[i];
    forall d | 0 <= d < BitLen(p.addr)
      ensures BitAt(y, off, d) <==> d < p.bits && BitAt(x, off, d)
    {
      MaskedByteBit(x, y, b, off, p.bits, d);
    }
  }

  /** The netip.Prefix that stands for a path: host bits zero. */
  ghost predicate Denotes(p: Prefix, path: Path) {
    && !p.addr.Invalid? && p.bits == |path| <= BitLen(p.addr)
    && BitsOf(p.addr) == Pad(path, BitLen(p.addr))
  }

  /** Masked leaves a prefix alone exactly when its host bits are already zero. */
  lemma MaskedUnchangedIff(p: Prefix)
    requires !p.addr.Invalid? && 0 <= p.bits <= BitLen(p.addr)
    ensures Masked(p) == p <==> Denotes(p, BitsOf(p.addr)[..p.bits])
  {
    MaskedBits(p);
    if Denotes(p, BitsOf(p.addr)[..p.bits]) {
      BitsDetermineAddr(Masked(p).addr, p.addr);
    }
  }

  lemma DenotesUnique(p: Prefix, q: Prefix, path: Path)
    requires Denotes(p, path) && Denotes(q, path) && p.addr.V4? == q.addr.V4?
    ensures p == q
  {
    BitsDetermineAddr(p.addr, q.addr);
  }

  // --- order -----------------------------------------------------------------------

  /** x and y first differ at byte k, where x is smaller. */
  predicate LessAt(x: seq<bv8>, y: seq<bv8>, k: nat) {
    k < |x| && k < |y| && x[..k] == y[..k] && x[k] < y[k]
  }

  predicate LexLess(x: seq<bv8>, y: seq<bv8>) {
    exists k | 0 <= k < |x| :: LessAt(x, y, k)
  }

  predicate AddrLess(a: Addr, b: Addr) {
    LexLess(As16(a), As16(b))
  }

  predicate PrefixLess(p: Prefix, q: Prefix) {
    AddrLess(p.addr, q.addr)
  }

  lemma LexTransitive(x: seq<bv8>, y: seq<bv8>, z: seq<bv8>)
    requires LexLess(x, y) && LexLess(y, z)
    ensures LexLess(x, z)
  {
    var j :| 0 <= j < |x| && LessAt(x, y, j);
    var k :| 0 <= k < |y| && LessAt(y, z, k);
    var m := if j < k then j else k;
    assert x[..j][..m] == x[..m] && y[..j][..m] == y[..m];
    assert y[..k][..m] == y[..m] && z[..k][..m] == z[..m];
    assert j < k ==> y[..k][j] == z[..k][j];
    assert k < j ==> x[..j][k] == y[..j][k];
    assert LessAt(x, z, m);
  }

  lemma LexIrreflexive(x: seq<bv8>)
    ensures !LexLess(x, x)
  {
  }

  lemma LexAsymmetric(x: seq<bv8>, y: seq<bv8>)
    requires LexLess(x, y)
    ensures !LexLess(y, x)
  {
    if LexLess(y, x) {
      LexTransitive(x, y, x);
      LexIrreflexive(x);
    }
  }

  lemma {:induction false} LexTotal(x: seq<bv8>, y: seq<bv8>, k: nat)
    requires |x| == |y| && k <= |x| && x[..k] == y[..k] && x != y
    ensures LexLess(x, y) || LexLess(y, x)
    decreases |x| - k
  {
    assert x[..|x|] == x && y[..|x|] == y;
    if k == |x| {
      assert false;
    } else if x[k] == y[k] {
      assert x[..k + 1] == x[..k] + [x[k]] && y[..k + 1] == y[..k] + [y[k]];
      LexTotal(x, y, k + 1);
    } else {
      assert LessAt(x, y, k) || LessAt(y, x, k);
    }
  }

  lemma AddrLessIsOrder()
    ensures Sorting.StrictWeakOrder(AddrLess)
    ensures Sorting.StrictWeakOrder(PrefixLess)
  {
    forall a: Addr, b: Addr, c: Addr
      ensures !AddrLess(a, a)
      ensures AddrLess(a, b) && AddrLess(b, c) ==> AddrLess(a, c)
      ensures AddrLess(a, c) ==> AddrLess(a, b) || AddrLess(b, c)
    {
      LexIrreflexive(As16(a));
      if AddrLess(a, b) && AddrLess(b, c) {
        LexTransitive(As16(a), As16(b), As16(c));
      }
      if AddrLess(a, c) && As16(a) != As16(b) && !AddrLess(a, b) {
        LexTotal(As16(a), As16(b), 0);
        LexTransitive(As16(b), As16(a), As16(c));
      }
    }
    assert forall p: Prefix, q: Prefix :: PrefixLess(p, q) <==> AddrLess(p.addr, q.addr);
  }

  /** compareAddrs: scan for the first byte that differs. */
  method CompareAddrs(a: Addr, b: Addr) returns (less: bool)
    ensures less <==> AddrLess(a, b)
  {
    var aBytes, bBytes := As16(a), As16(b);
    var i := 0;
    while i < 16
      invariant 0 <= i <= 16 && forall j | 0 <= j < i :: aBytes[j] == bBytes[j]
    {
      assert aBytes[..i] == bBytes[..i];
      if aBytes[i] < bBytes[i] {
        assert LessAt(aBytes, bBytes, i);
        return true;
      }
      if aBytes[i] > bBytes[i] {
        assert LessAt(bBytes, aBytes, i);
        LexAsymmetric(bBytes, aBytes);
        return false;
      }
      i := i + 1;
    }
    assert aBytes == bBytes;
    LexIrreflexive(aBytes);
    return false;
  }

  lemma SameBytesBefore(x: Bytes16, y: Bytes16, off: nat, d: nat)
    requires off <= 12 && off + d / 8 < 16 && x[..off] == y[..off]
    requires forall e | 0 <= e < d :: PathFrom(x, off)[e] == PathFrom(y, off)[e]
    ensures forall i | 0 <= i < off + d / 8 :: x[i] == y[i]
  {
    forall i | 0 <= i < off + d / 8
      ensures x[i] == y[i]
    {
      if i >= off {
        PathFromInjective(x, y, off, i);
      } else {
        assert x[..off][i] == y[..off][i];
      }
    }
  }

  lemma SameTopBits(x: Bytes16, y: Bytes16, off: nat, d: nat, i: nat)
    requires off <= i == off + d / 8 < 16
    requires forall e | 0 <= e < d :: PathFrom(x, off)[e] == PathFrom(y, off)[e]
    ensures forall j | 7 - d % 8 < j < 8 :: BitSet(x[i], j) <==> BitSet(y[i], j)
  {
    forall j | 7 - d % 8 < j < 8
      ensures BitSet(x[i], j) <==> BitSet(y[i], j)
    {
      var e := 8 * (d / 8) + 7 - j;
      assert e / 8 == d / 8 && 7 - e % 8 == j;
      assert PathFrom(x, off)[e] == PathFrom(y, off)[e];
    }
  }

  lemma FirstDifferenceDecides(x: Bytes16, y: Bytes16, off: nat, d: nat)
    requires off <= 12 && off + d / 8 < 16 && x[..off] == y[..off]
    requires forall e | 0 <= e < d :: PathFrom(x, off)[e] == PathFrom(y, off)[e]
    requires !BitAt(x, off, d) && BitAt(y, off, d)
    ensures LexLess(x, y)
  {
    var k := off + d / 8;
    SameBytesBefore(x, y, off, d);
    SameTopBits(x, y, off, d, k);
    FirstBitDecides(x[k], y[k], d % 8);
    assert LessAt(x, y, k);
  }

  /** In one family, the order on bytes is the left-to-right order on paths. */
  lemma BeforeIsLess(a: Addr, b: Addr)
    requires !a.Invalid? && !b.Invalid? && a.V4? == b.V4?
    requires Before(BitsOf(a), BitsOf(b))
    ensures AddrLess(a, b)
  {
    var p, q := BitsOf(a), BitsOf(b);
    var d :| 0 <= d < |p| && d < |q| && p[..d] == q[..d] && !p[d] && q[d];
    assert forall e | 0 <= e < d :: p[..d][e] == p[e] && q[..d][e] == q[e];
    FirstDifferenceDecides(As16(a), As16(b), ByteOffset(a), d);
  }
}
