/**
 * The slot-summing helpers of benchmarks/matrix_mul.cpp: `sum_all_slots`, and
 * `sum_all_slots2` with its `clog2` and `next_power_of_2` lambdas.
 *
 * A ciphertext is modelled symbolically, as the expression the helpers build from the input
 * with rotations and additions. Its meaning is given slot by slot over a vector `v` of plain
 * slot values: `x << k` rotates left, so slot `i` of the result holds slot `(i + k) mod |v|`
 * of `x`, and `+` adds slot by slot.
 */
module MatrixMul {
  import opened Wrappers

  datatype Cipher = Input | Rotate(arg: Cipher, steps: int) | Sum(lhs: Cipher, rhs: Cipher)

  /** The value slot `i` of `c` holds when the input holds `v`. */
  function EvalSlot(c: Cipher, v: seq<int>, i: nat): int
    requires 0 <= i < |v|
  {
    match c
    case Input => v[i]
    case Rotate(a, k) => EvalSlot(a, v, (i + k) % |v|)
    case Sum(a, b) => EvalSlot(a, v, i) + EvalSlot(b, v, i)
  }

  /** The sum of `len` consecutive slots from slot `i` on, wrapping around the vector. */
  function CyclicSum(v: seq<int>, i: int, len: nat): int
    requires |v| > 0
    decreases len
  {
    if len == 0 then 0 else v[i % |v|] + CyclicSum(v, i + 1, len - 1)
  }

  lemma {:induction false} CyclicSumSplit(v: seq<int>, i: int, a: nat, b: nat)
    requires |v| > 0
    ensures CyclicSum(v, i, a + b) == CyclicSum(v, i, a) + CyclicSum(v, i + a, b)
    decreases a
  {
    if a > 0 {
      CyclicSumSplit(v, i + 1, a - 1, b);
    }
  }

  lemma {:induction false} CyclicSumMod(v: seq<int>, i: int, len: nat)
    requires |v| > 0
    ensures CyclicSum(v, i % |v|, len) == CyclicSum(v, i, len)
    decreases len
  {
    if len > 0 {
      var n := |v|;
      CyclicSumMod(v, i + 1, len - 1);
      CyclicSumMod(v, i % n + 1, len - 1);
      assert (i % n + 1) % n == (i + 1) % n by {
        ModOfSuccessor(i, n);
      }
      ModUnique(i % n, n, 0, i % n);
    }
  }

  lemma ModOfSuccessor(i: int, n: int)
    requires n > 0
    ensures (i % n + 1) % n == (i + 1) % n
  {
    var q := i / n;
    var r := i % n;
    if r + 1 < n {
      ModUnique(i + 1, n, q, r + 1);
      ModUnique(r + 1, n, 0, r + 1);
    } else {
      ModUnique(i + 1, n, q + 1, 0);
      ModUnique(r + 1, n, 1, 0);
    }
  }

  /** The remainder is the one value in `[0, n)` that differs from `a` by a multiple of `n`. */
  lemma ModUnique(a: int, n: int, q: int, r: int)
    requires n > 0 && 0 <= r < n && a == q * n + r
    ensures a % n == r
  {
    var d := q - a / n;
    assert d * n == a % n - r;
    if d >= 1 {
      MulAtLeast(d, n);
    } else if d <= -1 {
      MulAtLeast(-d, n);
    }
  }

  lemma {:induction false} MulAtLeast(d: int, n: int)
    requires d >= 1 && n > 0
    ensures d * n >= n
    decreases d
  {
    if d > 1 {
      MulAtLeast(d - 1, n);
      assert d * n == (d - 1) * n + n;
    }
  }

  // ----- clog2 and next_power_of_2 -----

  function Pow2(k: nat): (p: nat)
    ensures p >= 1
  {
    if k == 0 then 1 else 2 * Pow2(k - 1)
  }

  lemma {:induction false} Pow2Monotone(j: nat, k: nat)
    requires j <= k
    ensures Pow2(j) <= Pow2(k)
    decreases k
  {
    if j < k {
      Pow2Monotone(j, k - 1);
    }
  }

  /** floor(log2 x) for x >= 1, and 0 below. */
  function FloorLog2(x: int): (r: nat)
    ensures x <= 1 ==> r == 0
    ensures x >= 1 ==> Pow2(r) <= x < Pow2(r + 1)
    decreases if x < 0 then 0 else x
  {
    if x <= 1 then 0 else 1 + FloorLog2(x / 2)
  }

  /** The bounds determine floor(log2 x): it is the one exponent whose power brackets x. */
  lemma FloorLog2Unique(x: int, k: nat)
    requires Pow2(k) <= x < Pow2(k + 1)
    ensures FloorLog2(x) == k
  {
    var r := FloorLog2(x);
    if r < k {
      Pow2Monotone(r + 1, k);
    } else if r > k {
      Pow2Monotone(k + 1, r);
    }
  }

  /** `clog2`: halve until 1 is reached, counting the halvings. */
  method Clog2(x: int) returns (r: nat)
    ensures r == FloorLog2(x)
  {
    var y := x;
    r := 0;
    while y > 1
      invariant r + FloorLog2(y) == FloorLog2(x)
      decreases y
    {
      y := y / 2;
      r := r + 1;
    }
  }

  /** The number of set bits. */
  function PopCount(n: nat): nat {
    if n == 0 then 0 else n % 2 + PopCount(n / 2)
  }

  /** Exactly one bit is set in `n` when `n` is a power of two. */
  lemma {:induction false} PopCountOneIffPowerOfTwo(n: nat)
    ensures PopCount(n) == 1 <==> n >= 1 && Pow2(FloorLog2(n)) == n
    decreases n
  {
    if n >= 2 {
      PopCountOneIffPowerOfTwo(n / 2);
      PopCountPositive(n / 2);
      var k := FloorLog2(n / 2);
      assert FloorLog2(n) == k + 1;
      assert Pow2(k + 1) == 2 * Pow2(k);
    }
  }

  lemma PopCountPositive(n: nat)
    requires n >= 1
    ensures PopCount(n) >= 1
  {
  }

  /** What `next_power_of_2` computes. */
  function NextPow2(n: nat): (r: nat)
    ensures n <= r && r > 0
  {
    if PopCount(n) == 1 then n else Pow2(FloorLog2(n) + 1)
  }

  /**
   * `next_power_of_2` gives the least power of two that is at least `n`, for `n >= 1`, and
   * 2 for `n == 0`.
   */
  lemma NextPow2IsLeastPowerAtLeast(n: nat)
    ensures n >= 1 ==> Pow2(FloorLog2(NextPow2(n))) == NextPow2(n) && n <= NextPow2(n) < 2 * n
    ensures n == 0 ==> NextPow2(n) == 2
  {
    PopCountOneIffPowerOfTwo(n);
    var k := FloorLog2(n);
    if n >= 1 && PopCount(n) != 1 {
      FloorLog2Unique(Pow2(k + 1), k + 1);
    }
  }

  /** `next_power_of_2`, on the range where `1 << (clog2(n) + 1)` does not overflow. */
  method NextPowerOfTwo(n: nat) returns (r: nat)
    requires n < 0x4000_0000
    ensures r == NextPow2(n)
  {
    if PopCount(n) == 1 {
      return n;
    }
    var log2OfN := Clog2(n);
    r := Pow2(log2OfN + 1);
  }

  // ----- sum_all_slots -----

  /**
   * The running sum of rotations in `sum_all_slots` after `k` turns of its loop: the
   * rotation by `top` followed by the rotations by `top - 1`, ..., `top - k`.
   */
  function RotationChain(x: Cipher, top: int, k: nat): Cipher {
    if k == 0 then Rotate(x, top) else Sum(RotationChain(x, top, k - 1), Rotate(x, top - k))
  }

  /** What `sum_all_slots` returns, or its `logic_error` for a negative first step. */
  function SumAllSlotsSpec(x: Cipher, vectorSize: int): (r: Result<Cipher, string>)
    ensures r.Err? <==> vectorSize < 1
    ensures r.Ok? ==> r.value.Sum? && r.value.lhs == x
  {
    var top := vectorSize - 1;
    if top < 0 then Err("negative rotation step")
    else Ok(Sum(x, RotationChain(x, top, if top > 0 then top - 1 else 0)))
  }

  /** `sum_all_slots`, as written. */
  method SumAllSlots(x: Cipher, vectorSize: int) returns (r: Result<Cipher, string>)
    ensures r == SumAllSlotsSpec(x, vectorSize)
  {
    var step := vectorSize - 1;
    if step < 0 {
      return Err("negative rotation step");
    }
    var top := step;
    var rotsSum := Rotate(x, step);
    step := step - 1;
    while step > 0
      invariant 0 <= top - 1 - step <= if top > 0 then top - 1 else 0
      invariant step >= 0 || top == 0
      invariant rotsSum == RotationChain(x, top, top - 1 - step)
      decreases step
    {
      rotsSum := Sum(rotsSum, Rotate(x, step));
      step := step - 1;
    }
    r := Ok(Sum(x, rotsSum));
  }

  /** Slot 0 of the rotation chain holds slots `top - k` to `top` of the input. */
  lemma {:induction false} RotationChainSlotZero(v: seq<int>, top: nat, k: nat)
    requires |v| > 0 && k <= top
    ensures EvalSlot(RotationChain(Input, top, k), v, 0) == CyclicSum(v, top - k, k + 1)
    decreases k
  {
    if k > 0 {
      RotationChainSlotZero(v, top, k - 1);
      assert RotationChain(Input, top, k) == Sum(RotationChain(Input, top, k - 1), Rotate(Input, top - k));
      assert EvalSlot(Rotate(Input, top - k), v, 0) == v[(top - k) % |v|];
      assert top - k + 1 == top - (k - 1);
      assert CyclicSum(v, top - k, k + 1) == v[(top - k) % |v|] + CyclicSum(v, top - k + 1, k);
    }
  }

  /**
   * For at least two slots, slot 0 of the result of `sum_all_slots` holds the sum of the
   * first `vectorSize` slots (cyclically).
   */
  lemma SumAllSlotsSumsSlots(v: seq<int>, vectorSize: int)
    requires |v| > 0 && vectorSize >= 2
    ensures SumAllSlotsSpec(Input, vectorSize).Ok?
    ensures EvalSlot(SumAllSlotsSpec(Input, vectorSize).value, v, 0) == CyclicSum(v, 0, vectorSize)
  {
    RotationChainSlotZero(v, vectorSize - 1, vectorSize - 2);
    assert 0 % |v| == 0;
  }

  /** With one slot, `sum_all_slots` rotates by 0 and so doubles the slot instead of keeping it. */
  lemma SingleSlotDoubled(v: seq<int>)
    requires |v| > 0
    ensures SumAllSlotsSpec(Input, 1).Ok?
    ensures EvalSlot(SumAllSlotsSpec(Input, 1).value, v, 0) == 2 * v[0]
    ensures v[0] != 0 ==> EvalSlot(SumAllSlotsSpec(Input, 1).value, v, 0) != CyclicSum(v, 0, 1)
  {
    assert 0 % |v| == 0;
    assert CyclicSum(v, 0, 1) == v[0] + CyclicSum(v, 1, 0);
  }

  /** `sum_all_slots` with no rotation at all when there is a single slot. */
  function SumAllSlotsCorrected(x: Cipher, vectorSize: int): Result<Cipher, string> {
    if vectorSize - 1 < 0 then Err("negative rotation step")
    else if vectorSize == 1 then Ok(x)
    else SumAllSlotsSpec(x, vectorSize)
  }

  /**
   * The corrected helper fails exactly for a size below 1 and otherwise leaves the sum of
   * the first `vectorSize` slots in slot 0.
   */
  lemma SumAllSlotsCorrectedSums(v: seq<int>, vectorSize: int)
    requires |v| > 0
    ensures SumAllSlotsCorrected(Input, vectorSize).Err? <==> vectorSize < 1
    ensures vectorSize >= 1 ==>
              EvalSlot(SumAllSlotsCorrected(Input, vectorSize).value, v, 0) == CyclicSum(v, 0, vectorSize)
  {
    if vectorSize == 1 {
      assert 0 % |v| == 0;
      assert CyclicSum(v, 0, 1) == v[0] + CyclicSum(v, 1, 0);
    } else if vectorSize >= 2 {
      SumAllSlotsSumsSlots(v, vectorSize);
    }
  }

  // ----- sum_all_slots2 -----

  /** The result of `sum_all_slots2` after `k` turns: each turn adds its own rotation by `2^(turn)`. */
  function Doubling(x: Cipher, k: nat): Cipher {
    if k == 0 then x
    else
      var p := Doubling(x, k - 1);
      Sum(p, Rotate(p, Pow2(k - 1)))
  }

  /** `sum_all_slots2`, on the range where `next_power_of_2` does not overflow. */
  method SumAllSlots2(x: Cipher, vectorSize: nat) returns (r: Cipher)
    requires vectorSize < 0x4000_0000
    ensures r == Doubling(x, FloorLog2(NextPow2(vectorSize)))
  {
    r := x;
    var size := NextPowerOfTwo(vectorSize);
    var maxNumSteps := Clog2(size);
    var rotStep := 1;
    ghost var total := maxNumSteps;
    while maxNumSteps != 0
      invariant 0 <= maxNumSteps <= total
      invariant r == Doubling(x, total - maxNumSteps)
      invariant rotStep == Pow2(total - maxNumSteps)
    {
      maxNumSteps := maxNumSteps - 1;
      var newRotatedCipher := Rotate(r, rotStep);
      r := Sum(r, newRotatedCipher);
      rotStep := rotStep * 2;
    }
  }

  /** After `k` doubling turns every slot holds the sum of the `2^k` slots from it on. */
  lemma {:induction false} DoublingSumsWindows(v: seq<int>, k: nat, i: nat)
    requires 0 <= i < |v|
    ensures EvalSlot(Doubling(Input, k), v, i) == CyclicSum(v, i, Pow2(k))
    decreases k
  {
    if k > 0 {
      var m := Pow2(k - 1);
      var j := (i + m) % |v|;
      DoublingSumsWindows(v, k - 1, i);
      DoublingSumsWindows(v, k - 1, j);
      CyclicSumMod(v, i + m, m);
      CyclicSumSplit(v, i, m, m);
    }
  }

  /**
   * Slot 0 of the result of `sum_all_slots2` holds the sum of the first
   * `next_power_of_2(vectorSize)` slots: all `vectorSize` of them, and the following ones up
   * to the next power of two.
   */
  lemma SumAllSlots2SumsSlots(v: seq<int>, vectorSize: nat)
    requires |v| > 0 && vectorSize >= 1
    ensures var n := NextPow2(vectorSize);
            vectorSize <= n < 2 * vectorSize
            && EvalSlot(Doubling(Input, FloorLog2(n)), v, 0) == CyclicSum(v, 0, n)
  {
    NextPow2IsLeastPowerAtLeast(vectorSize);
    DoublingSumsWindows(v, FloorLog2(NextPow2(vectorSize)), 0);
  }
}
