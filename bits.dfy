/** Python's `<<` and `|` on non-negative integers: `|` is defined bit by bit,
    `v << n` as `v * 2^n`. */
module Bits {

  /** 2 to the power n. */
  function Pow2(n: nat): (r: nat)
    ensures r >= 1
  {
    if n == 0 then 1 else 2 * Pow2(n - 1)
  }

  /** `v << n`. */
  function ShiftLeft(v: nat, n: nat): (r: nat)
  {
    v * Pow2(n)
  }

  /** `a | b`: the lowest bit is set when it is set in either operand,
      the higher bits are the OR of the operands shifted right by one. */
  function Or(a: nat, b: nat): (r: nat)
    decreases a + b
  {
    if a == 0 && b == 0 then 0
    else 2 * Or(a / 2, b / 2) + (if a % 2 == 1 || b % 2 == 1 then 1 else 0)
  }

  /** The lowest n bits of x are all zero (x is a multiple of 2^n). */
  predicate LowBitsClear(x: nat, n: nat)
  {
    n == 0 || (x % 2 == 0 && LowBitsClear(x / 2, n - 1))
  }

  /** 0 is the identity of `|`. */
  lemma {:induction false} OrZero(a: nat)
    ensures Or(a, 0) == a
  {
    if a != 0 {
      OrZero(a / 2);
    }
  }

  /** Setting bit n of a number whose bits 0..n are clear is an addition:
      `x | (1 << n) == x + 2^n`. */
  lemma {:induction false} OrAlignedIsAdd(x: nat, n: nat)
    requires LowBitsClear(x, n + 1)
    ensures Or(x, ShiftLeft(1, n)) == x + Pow2(n)
  {
    if n == 0 {
      OrZero(x / 2);
      assert Or(x, 1) == 2 * Or(x / 2, 0) + 1;
    } else {
      OrAlignedIsAdd(x / 2, n - 1);
      assert Pow2(n) / 2 == Pow2(n - 1) && Pow2(n) % 2 == 0;
      assert Or(x, Pow2(n)) == 2 * Or(x / 2, Pow2(n - 1));
    }
  }

  /** After setting bit n of a number whose bits 0..n are clear, bits 0..n-1
      are still clear; they were clear before as well. */
  lemma {:induction false} AlignedAfterSet(x: nat, n: nat)
    requires LowBitsClear(x, n + 1)
    ensures LowBitsClear(x + Pow2(n), n) && LowBitsClear(x, n)
  {
    if n > 0 {
      AlignedAfterSet(x / 2, n - 1);
      assert (x + Pow2(n)) / 2 == x / 2 + Pow2(n - 1);
    }
  }
}
