/** The arithmetic of the merge test: a 64-bit shift, then a division. */
module Density {
  import opened BitPaths

  const SIGN_BIT: nat := 0x8000_0000_0000_0000

  lemma SignBitValue()
    ensures Pow2(63) == SIGN_BIT
  {
    assert Pow2(2) == 4;
    Pow2Double(2, 4);
    Pow2Double(4, 16);
    Pow2Double(8, 256);
    Pow2Double(16, 0x1_0000);
    Pow2Double(32, 0x1_0000_0000);
    assert Pow2(64) == 2 * Pow2(63);
  }

  lemma Pow2Double(n: nat, v: nat)
    requires Pow2(n) == v
    ensures Pow2(2 * n) == v * v
  {
    Pow2Sum(n, n);
  }

  lemma {:induction false} Pow2Sum(m: nat, n: nat)
    ensures Pow2(m + n) == Pow2(m) * Pow2(n)
  {
    if m > 0 {
      Pow2Sum(m - 1, n);
      assert Pow2(m + n) == 2 * Pow2(m - 1 + n);
    }
  }

  /** `1 << k` on a 64-bit signed int: bit 63 is the sign, and larger shifts leave nothing. */
  function ShiftInt64(k: nat): int {
    if k >= 64 then 0 else if k == 63 then 0 - SIGN_BIT else Pow2(k)
  }

  /** float64(count) / float64(maxPossible) >= threshold. A positive count over zero is +Inf. */
  predicate RatioReaches(count: nat, maxPossible: int, threshold: real)
    requires count > 0
  {
    if maxPossible == 0 then true
    else count as real / maxPossible as real >= threshold
  }

  /** The test `collectPrefixes` makes on a subtree with `below` address bits left. */
  predicate MergeTest(below: nat, count: nat, threshold: real)
    requires count > 0
  {
    RatioReaches(count, ShiftInt64(below), threshold)
  }

  /** What the test is meant to say: the inputs fill the given share of the prefix. */
  predicate DenseEnough(below: nat, count: nat, threshold: real) {
    count as real >= threshold * Pow2(below) as real
  }

  lemma DivisionTest(x: real, y: real, t: real)
    requires y > 0.0
    ensures x / y >= t <==> x >= t * y
  {
    QuotientTest(x / y, x, y, t);
  }

  lemma QuotientTest(q: real, x: real, y: real, t: real)
    requires y > 0.0 && x == q * y
    ensures q >= t <==> x >= t * y
  {
    if q >= t {
      ScaleMonotone(t, q, y);
    } else {
      ScaleStrict(q, t, y);
    }
  }

  lemma ScaleStrict(low: real, high: real, y: real)
    requires low < high && y > 0.0
    ensures low * y < high * y
  {
    assert (high - low) * y > 0.0;
  }

  lemma ScaleMonotone(low: real, high: real, y: real)
    requires low <= high && y >= 0.0
    ensures low * y <= high * y
  {
    assert (high - low) * y >= 0.0;
  }

  lemma NegatedDivisor(x: real, y: real)
    requires y > 0.0
    ensures x / -y == -(x / y)
  {
    var q := x / y;
    assert x == -q * -y;
  }

  /** The test is the exact density test whenever at most 62 bits are below. */
  lemma MergeTestExact(below: nat, count: nat, threshold: real)
    requires below <= 62 && count > 0
    ensures MergeTest(below, count, threshold) <==> DenseEnough(below, count, threshold)
  {
    DivisionTest(count as real, Pow2(below) as real, threshold);
  }

  /** From threshold 1 on, only a full subtree passes. */
  lemma MergeTestAtOne(below: nat, count: nat, threshold: real)
    requires below <= 62 && count > 0 && threshold >= 1.0
    requires MergeTest(below, count, threshold)
    ensures count >= Pow2(below)
  {
    var y := Pow2(below) as real;
    MergeTestExact(below, count, threshold);
    ScaleMonotone(1.0, threshold, y);
    assert count as real >= y;
  }

  lemma MergeTestFull(below: nat)
    requires below <= 62
    ensures MergeTest(below, Pow2(below), 1.0)
  {
    MergeTestExact(below, Pow2(below), 1.0);
  }

  /** With 63 bits below, the divisor is negative: for a positive threshold the test
      always fails, so it is exact just for counts short of the threshold. */
  lemma MergeTestAtSignBit(count: nat, threshold: real)
    requires count > 0 && threshold > 0.0
    ensures !MergeTest(63, count, threshold)
    ensures (MergeTest(63, count, threshold) <==> DenseEnough(63, count, threshold))
        <==> count as real < threshold * Pow2(63) as real
  {
    NegatedDivisor(count as real, SIGN_BIT as real);
    assert (0 - SIGN_BIT) as real == -(SIGN_BIT as real);
  }

  /** For any threshold, the negative divisor turns the test around: it asks for few inputs. */
  lemma MergeTestAtSignBitIff(count: nat, threshold: real)
    requires count > 0
    ensures MergeTest(63, count, threshold) <==> count as real <= -threshold * SIGN_BIT as real
  {
    var y := SIGN_BIT as real;
    NegatedDivisor(count as real, y);
    assert (0 - SIGN_BIT) as real == -y;
    if count as real / y > -threshold {
      ScaleStrict(-threshold, count as real / y, y);
    } else {
      ScaleMonotone(count as real / y, -threshold, y);
    }
    assert count as real / y * y == count as real;
  }

  /** With 64 or more bits below, the divisor is zero and every branching node passes. */
  lemma MergeTestOverflow(below: nat, count: nat, threshold: real)
    requires below >= 64 && count > 0
    ensures MergeTest(below, count, threshold)
  {
  }

  /** At threshold -1 every count passes. */
  lemma MergeTestAtMinusOne(below: nat, count: nat)
    requires 0 < count < SIGN_BIT
    ensures MergeTest(below, count, -1.0)
  {
    if below <= 62 {
      MergeTestExact(below, count, -1.0);
    } else if below == 63 {
      DivisionTest(count as real, SIGN_BIT as real, 1.0);
      NegatedDivisor(count as real, SIGN_BIT as real);
      assert (0 - SIGN_BIT) as real == -(SIGN_BIT as real);
    }
  }

  /** More inputs, or a lower threshold, never turn the test off; at the sign bit more inputs may, once they
      exceed the share of 2^63 that a threshold of zero or less asks for. */
  lemma MergeTestMonotone(below: nat, few: nat, many: nat, high: real, low: real)
    requires 0 < few <= many && low <= high
    requires below != 63 || few == many || low > 0.0 || many as real <= -low * SIGN_BIT as real
    requires MergeTest(below, few, high)
    ensures MergeTest(below, many, low)
  {
    if below <= 62 {
      MergeTestExact(below, few, high);
      MergeTestExact(below, many, low);
      ScaleMonotone(low, high, Pow2(below) as real);
    } else if below == 63 {
      MergeTestAtSignBitIff(few, high);
      MergeTestAtSignBitIff(many, low);
      ScaleMonotone(low, high, SIGN_BIT as real);
    }
  }
}
