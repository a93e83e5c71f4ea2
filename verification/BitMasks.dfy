/** Masks of a fixed width as numbers: their bits, and the arithmetic by which the
    register guards recognise a contiguous run. */
module BitMasks {
  import opened Arithmetic

  function Pow2(n: nat): (p: nat)
    ensures p > 0
  {
    if n == 0 then 1 else 2 * Pow2(n - 1)
  }

  lemma FourMore(n: nat)
    ensures Pow2(n + 4) == 16 * Pow2(n)
  {
    assert Pow2(n + 1) == 2 * Pow2(n);
    assert Pow2(n + 2) == 2 * Pow2(n + 1);
    assert Pow2(n + 3) == 2 * Pow2(n + 2);
    assert Pow2(n + 4) == 2 * Pow2(n + 3);
  }

  lemma PowersInUse()
    ensures Pow2(14) == 0x4000 && Pow2(32) == 0x1_0000_0000
  {
    FourMore(0);
    FourMore(4);
    FourMore(8);
    FourMore(12);
    FourMore(16);
    FourMore(20);
    FourMore(24);
    FourMore(28);
    assert Pow2(13) == 2 * Pow2(12);
    assert Pow2(14) == 2 * Pow2(13);
  }

  predicate Bit(x: nat, r: nat)
    decreases r
  {
    if r == 0 then x % 2 == 1 else Bit(x / 2, r - 1)
  }

  /** Bit r is the parity of what is left after r bits are shifted out. */
  lemma {:induction false} BitExactly(x: nat, r: nat)
    ensures Bit(x, r) <==> x / Pow2(r) % 2 == 1
    decreases r
  {
    if r > 0 {
      BitExactly(x / 2, r - 1);
      QuotientOfHalf(x, Pow2(r - 1));
    }
  }

  lemma QuotientOfHalf(x: nat, d: nat)
    requires d > 0
    ensures x / 2 / d == x / (2 * d)
  {
    var q, r := x / 2 / d, x / 2 % d;
    QuotientBounds(x / 2, d);
    assert q * (2 * d) == 2 * (q * d);
    UniqueQuotient(x, q, 2 * r + x % 2, 2 * d);
  }

  /** The bitwise conjunction. */
  function And(x: nat, y: nat): (z: nat)
    ensures z <= x && z <= y
    decreases x
  {
    if x == 0 then 0 else (if x % 2 == 1 && y % 2 == 1 then 1 else 0) + 2 * And(x / 2, y / 2)
  }

  lemma {:induction false} NoBitInZero(r: nat)
    ensures !Bit(0, r)
  {
    if r > 0 {
      NoBitInZero(r - 1);
    }
  }

  lemma {:induction false} BitOfAnd(x: nat, y: nat, r: nat)
    ensures Bit(And(x, y), r) <==> Bit(x, r) && Bit(y, r)
    decreases r
  {
    if x == 0 {
      NoBitInZero(r);
    } else {
      var z := And(x, y);
      assert z / 2 == And(x / 2, y / 2);
      if r > 0 {
        BitOfAnd(x / 2, y / 2, r - 1);
      }
    }
  }

  /** A number is determined by its bits. */
  lemma {:induction false} SameBits(x: nat, y: nat)
    requires forall r: nat :: Bit(x, r) <==> Bit(y, r)
    ensures x == y
    decreases x + y
  {
    if x != 0 || y != 0 {
      assert Bit(x, 0) <==> Bit(y, 0);
      forall r: nat
        ensures Bit(x / 2, r) <==> Bit(y / 2, r)
      {
        assert Bit(x, r + 1) <==> Bit(y, r + 1);
      }
      SameBits(x / 2, y / 2);
    }
  }

  // Unsigned arithmetic of `width` bits

  function Minus(x: nat, y: nat, width: nat): nat
    requires x < Pow2(width) && y < Pow2(width)
  {
    if x >= y then x - y else x + Pow2(width) - y
  }

  function Plus(x: nat, y: nat, width: nat): (z: nat)
    requires x < Pow2(width) && y < Pow2(width)
    ensures z < Pow2(width)
  {
    if x + y < Pow2(width) then x + y else x + y - Pow2(width)
  }

  function Lowest(mask: nat, width: nat): (z: nat)
    requires mask < Pow2(width)
    ensures z <= mask
  {
    And(mask, Minus(0, mask, width))
  }

  /** The mask with its lowest bit added: the carry passes the lowest run. */
  function Above(mask: nat, width: nat): (z: nat)
    requires mask < Pow2(width)
    ensures z < Pow2(width)
  {
    Plus(mask, Lowest(mask, width), width)
  }

  /** Whether at most one bit is set, of a number of this width. */
  predicate AtMostOneBit(a: nat, width: nat)
    requires a < Pow2(width) && width > 0
  {
    And(a, Minus(a, 1, width)) == 0
  }

  /** The test for a contiguous mask: at most one bit is left above the run. */
  predicate SingleRun(mask: nat, width: nat)
    requires 0 < mask < Pow2(width)
  {
    AtMostOneBit(Above(mask, width), width)
  }

  /** The number of zero bits below the lowest bit. */
  function TrailingZeros(x: nat): nat
    requires x > 0
  {
    if x % 2 == 1 then 0 else 1 + TrailingZeros(x / 2)
  }

  function RunStart(mask: nat): nat
    requires mask > 0
  {
    TrailingZeros(mask)
  }

  /** Where a run ends when `above` is left of the carry that passed it. */
  function EndBelow(above: nat, width: nat): nat {
    if above == 0 then width else TrailingZeros(above)
  }

  function RunEnd(mask: nat, width: nat): nat
    requires 0 < mask < Pow2(width)
  {
    EndBelow(Above(mask, width), width)
  }

  // Even and odd masks

  lemma {:induction false} NothingWithComplement(k: nat, width: nat)
    requires k < Pow2(width)
    ensures And(k, Pow2(width) - 1 - k) == 0
    decreases width
  {
    if k > 0 {
      assert (Pow2(width) - 1 - k) / 2 == Pow2(width - 1) - 1 - k / 2;
      NothingWithComplement(k / 2, width - 1);
    }
  }

  /** The conjunction of two numbers from that of their halves. */
  lemma AndOfHalves(x: nat, b: nat, y: nat, c: nat)
    requires b < 2 && c < 2
    ensures And(2 * x + b, 2 * y + c) == 2 * And(x, y) + (if b == 1 && c == 1 then 1 else 0)
  {
    assert (2 * x + b) / 2 == x && (2 * x + b) % 2 == b;
    assert (2 * y + c) / 2 == y && (2 * y + c) % 2 == c;
  }

  lemma EvenLowest(k: nat, width: nat)
    requires k < Pow2(width)
    ensures Lowest(2 * k, width + 1) == 2 * Lowest(k, width)
  {
    assert Minus(0, 2 * k, width + 1) == 2 * Minus(0, k, width);
    AndOfHalves(k, 0, Minus(0, k, width), 0);
  }

  lemma OddLowest(k: nat, width: nat)
    requires k < Pow2(width)
    ensures Lowest(2 * k + 1, width + 1) == 1
  {
    var complement := Pow2(width) - 1 - k;
    assert Minus(0, 2 * k + 1, width + 1) == 2 * complement + 1;
    AndOfHalves(k, 1, complement, 1);
    NothingWithComplement(k, width);
  }

  lemma OneBitTest(a: nat, width: nat)
    requires a < Pow2(width) && width > 0
    ensures AtMostOneBit(a, width) <==> a == 0 || And(a, a - 1) == 0
  {
  }

  lemma OneBitOfDouble(a: nat, width: nat)
    requires a < Pow2(width) && width > 0
    ensures AtMostOneBit(2 * a, width + 1) <==> AtMostOneBit(a, width)
  {
    OneBitTest(a, width);
    OneBitTest(2 * a, width + 1);
    if a > 0 {
      assert And(2 * a, 2 * a - 1) == 2 * And(a, a - 1) by {
        AndOfHalves(a, 0, a - 1, 1);
      }
    }
  }

  lemma EvenMask(k: nat, width: nat)
    requires 0 < k < Pow2(width)
    ensures Above(2 * k, width + 1) == 2 * Above(k, width)
    ensures SingleRun(2 * k, width + 1) <==> SingleRun(k, width)
  {
    assert width > 0;
    assert Above(2 * k, width + 1) == 2 * Above(k, width) by {
      EvenLowest(k, width);
    }
    OneBitOfDouble(Above(k, width), width);
  }

  lemma OddMask(k: nat, width: nat)
    requires k < Pow2(width)
    ensures Above(2 * k + 1, width + 1) == if k == Pow2(width) - 1 then 0 else 2 * (k + 1)
    ensures SingleRun(2 * k + 1, width + 1) <==> k == Pow2(width) - 1 || And(k + 1, k) == 0
  {
    assert Above(2 * k + 1, width + 1) == if k == Pow2(width) - 1 then 0 else 2 * (k + 1) by {
      OddLowest(k, width);
    }
    assert And(0, Minus(0, 1, width + 1)) == 0;
    AndOfHalves(k + 1, 0, k, 1);
    assert 2 * (k + 1) - 1 == 2 * k + 1;
  }

  /** A number meets its successor nowhere exactly when it is all ones. */
  lemma {:induction false} AllOnes(k: nat)
    ensures And(k + 1, k) == 0 <==> k + 1 == Pow2(TrailingZeros(k + 1))
  {
    if k % 2 == 1 {
      AllOnes(k / 2);
      assert (k + 1) / 2 == k / 2 + 1;
    } else if k > 0 {
      assert (k + 1) / 2 == k / 2;
      AndWithItself(k / 2);
    }
  }

  lemma {:induction false} AndWithItself(x: nat)
    ensures And(x, x) == x
  {
    if x > 0 {
      AndWithItself(x / 2);
    }
  }

  lemma {:induction false} PowersGrow(a: nat, b: nat)
    requires a < b
    ensures Pow2(a) < Pow2(b)
  {
    if a < b - 1 {
      PowersGrow(a, b - 1);
    }
  }

  lemma {:induction false} TrailingZerosOfPower(n: nat)
    ensures TrailingZeros(Pow2(n)) == n
  {
    if n > 0 {
      TrailingZerosOfPower(n - 1);
    }
  }

  // Runs

  /** The mask of the bits first, ..., end - 1. */
  function RunMask(first: nat, end: nat): (m: nat)
    requires first < end
    ensures m > 0
  {
    PowersGrow(first, end);
    Pow2(end) - Pow2(first)
  }

  lemma {:induction false} BitOfPower(n: nat, r: nat)
    ensures Bit(Pow2(n) - 1, r) <==> r < n
    decreases n
  {
    if n == 0 {
      NoBitInZero(r);
    } else {
      assert (Pow2(n) - 1) / 2 == Pow2(n - 1) - 1;
      if r > 0 {
        BitOfPower(n - 1, r - 1);
      }
    }
  }

  lemma {:induction false} BitOfRun(first: nat, end: nat, r: nat)
    requires first < end
    ensures Bit(RunMask(first, end), r) <==> first <= r < end
    decreases first
  {
    if first == 0 {
      BitOfPower(end, r);
    } else {
      assert RunMask(first, end) == 2 * RunMask(first - 1, end - 1);
      if r > 0 {
        BitOfRun(first - 1, end - 1, r - 1);
      }
    }
  }

  /** The two indices computed from the mask delimit the run that it is. */
  predicate RunFound(mask: nat, width: nat) {
    && 0 < mask < Pow2(width)
    && RunStart(mask) < RunEnd(mask, width) <= width
    && mask == RunMask(RunStart(mask), RunEnd(mask, width))
  }

  lemma PowerIsRun(mask: nat, width: nat, end: nat)
    requires 0 < mask < Pow2(width) && mask % 2 == 1 && mask == Pow2(end) - 1 && RunEnd(mask, width) == end
    ensures RunFound(mask, width)
  {
    if end > width {
      PowersGrow(width, end);
    }
  }

  lemma TrailingZerosOfDouble(x: nat)
    requires x > 0
    ensures TrailingZeros(2 * x) == TrailingZeros(x) + 1
  {
    assert 2 * x / 2 == x;
  }

  lemma OddRunEnd(k: nat, width: nat)
    requires k < Pow2(width)
    ensures RunEnd(2 * k + 1, width + 1) == if k == Pow2(width) - 1 then width + 1 else TrailingZeros(k + 1) + 1
  {
    assert Above(2 * k + 1, width + 1) == if k == Pow2(width) - 1 then 0 else 2 * (k + 1) by {
      OddMask(k, width);
    }
    TrailingZerosOfDouble(k + 1);
  }

  lemma OnesOfTest(k: nat, width: nat)
    requires k < Pow2(width) && SingleRun(2 * k + 1, width + 1)
    ensures k == Pow2(width) - 1 || k + 1 == Pow2(TrailingZeros(k + 1))
  {
    OddMask(k, width);
    AllOnes(k);
  }

  lemma OddRun(k: nat, width: nat)
    requires k < Pow2(width) && SingleRun(2 * k + 1, width + 1)
    ensures RunFound(2 * k + 1, width + 1)
  {
    OnesOfTest(k, width);
    OddOnes(k, width);
  }

  lemma OddOnes(k: nat, width: nat)
    requires k < Pow2(width)
    requires k == Pow2(width) - 1 || k + 1 == Pow2(TrailingZeros(k + 1))
    ensures RunFound(2 * k + 1, width + 1)
  {
    OddRunEnd(k, width);
    var end := if k == Pow2(width) - 1 then width + 1 else TrailingZeros(k + 1) + 1;
    OddIsPower(k, end - 1);
    PowerIsRun(2 * k + 1, width + 1, end);
  }

  lemma OddIsPower(k: nat, n: nat)
    requires k + 1 == Pow2(n)
    ensures 2 * k + 1 == Pow2(n + 1) - 1
  {
  }

  lemma RunMaskOfDouble(first: nat, end: nat)
    requires first < end
    ensures RunMask(first + 1, end + 1) == 2 * RunMask(first, end)
  {
  }

  lemma EndOfDouble(above: nat, width: nat)
    ensures EndBelow(2 * above, width + 1) == EndBelow(above, width) + 1
  {
    if above > 0 {
      TrailingZerosOfDouble(above);
    }
  }

  lemma EvenRun(k: nat, width: nat)
    requires 0 < k < Pow2(width)
    ensures RunStart(2 * k) == RunStart(k) + 1 && RunEnd(2 * k, width + 1) == RunEnd(k, width) + 1
  {
    assert Above(2 * k, width + 1) == 2 * Above(k, width) by {
      EvenMask(k, width);
    }
    TrailingZerosOfDouble(k);
    EndOfDouble(Above(k, width), width);
  }

  lemma EvenRunFound(k: nat, width: nat)
    requires RunFound(k, width)
    ensures RunFound(2 * k, width + 1)
  {
    EvenRun(k, width);
    RunMaskOfDouble(RunStart(k), RunEnd(k, width));
  }

  lemma HalfPasses(k: nat, width: nat)
    requires 0 < k < Pow2(width) && SingleRun(2 * k, width + 1)
    ensures SingleRun(k, width)
  {
    EvenMask(k, width);
  }

  lemma HalfBelow(mask: nat, width: nat) returns (k: nat)
    requires 0 < mask < Pow2(width)
    ensures width > 0 && k < Pow2(width - 1)
    ensures mask == 2 * k + 1 || (mask == 2 * k && 0 < k < mask)
  {
    k := mask / 2;
  }

  /** A mask that passes the test is the run between the two indices computed from it. */
  lemma {:induction false} RunOfMask(mask: nat, width: nat)
    requires 0 < mask < Pow2(width) && SingleRun(mask, width)
    ensures RunFound(mask, width)
    decreases mask
  {
    var k := HalfBelow(mask, width);
    if mask == 2 * k + 1 {
      OddRun(k, width - 1);
    } else {
      HalfPasses(k, width - 1);
      RunOfMask(k, width - 1);
      EvenRunFound(k, width - 1);
    }
  }

  lemma OnesPass(k: nat, width: nat, n: nat)
    requires k == Pow2(n) - 1 && n <= width
    ensures k < Pow2(width) && SingleRun(2 * k + 1, width + 1)
  {
    PowerAtMost(n, width);
    assert And(k + 1, k) == 0 by {
      AllOnes(k);
      TrailingZerosOfPower(n);
    }
    OddMask(k, width);
  }

  lemma OddRunPasses(end: nat, width: nat)
    requires 0 < end <= width
    ensures RunMask(0, end) < Pow2(width) && SingleRun(RunMask(0, end), width)
  {
    var k := Pow2(end - 1) - 1;
    LowRun(end);
    PowerAtMost(end, width);
    OnesPass(k, width - 1, end - 1);
  }

  lemma LowRun(end: nat)
    requires end > 0
    ensures RunMask(0, end) == Pow2(end) - 1 == 2 * (Pow2(end - 1) - 1) + 1
  {
  }

  lemma PowerAtMost(a: nat, b: nat)
    requires a <= b
    ensures Pow2(a) <= Pow2(b)
  {
    if a < b {
      PowersGrow(a, b);
    }
  }

  /** Every run passes the test, also one that ends at the highest bit. */
  lemma {:induction false} RunPasses(first: nat, end: nat, width: nat)
    requires first < end <= width
    ensures RunMask(first, end) < Pow2(width) && SingleRun(RunMask(first, end), width)
    decreases first
  {
    if first == 0 {
      OddRunPasses(end, width);
    } else {
      var half := RunMask(first - 1, end - 1);
      assert RunMask(first, end) == 2 * half;
      RunPasses(first - 1, end - 1, width - 1);
      EvenMask(half, width - 1);
    }
  }

  ghost predicate IsRun(mask: nat, first: nat, end: nat) {
    first < end && forall r: nat :: Bit(mask, r) <==> first <= r < end
  }

  /** The test succeeds for exactly the masks whose bits are one run, and the indices
      it leads to are those of the run. */
  lemma SingleRunExactly(mask: nat, width: nat)
    requires 0 < mask < Pow2(width)
    ensures SingleRun(mask, width) <==> exists first: nat, end: nat :: end <= width && IsRun(mask, first, end)
    ensures SingleRun(mask, width) ==> RunEnd(mask, width) <= width && IsRun(mask, RunStart(mask), RunEnd(mask, width))
  {
    if SingleRun(mask, width) {
      RunOfMask(mask, width);
      forall r: nat
        ensures Bit(mask, r) <==> RunStart(mask) <= r < RunEnd(mask, width)
      {
        BitOfRun(RunStart(mask), RunEnd(mask, width), r);
      }
      assert IsRun(mask, RunStart(mask), RunEnd(mask, width));
    }
    forall first: nat, end: nat | end <= width && IsRun(mask, first, end)
      ensures SingleRun(mask, width)
    {
      forall r: nat
        ensures Bit(mask, r) <==> Bit(RunMask(first, end), r)
      {
        BitOfRun(first, end, r);
      }
      SameBits(mask, RunMask(first, end));
      RunPasses(first, end, width);
    }
  }
}
