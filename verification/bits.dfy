/**
 * Bitwise OR on naturals, as `uint8_t |=` computes it on the compiler's pending
 * byte, and its agreement with addition when the set bits do not overlap.
 */
module Bits {
  function Pow2(k: nat): (r: nat)
    ensures r >= 1
  {
    if k == 0 then 1 else 2 * Pow2(k - 1)
  }

  /** Bitwise OR, one bit at a time from the least significant. */
  function BitOr(a: nat, b: nat): nat
    decreases a + b
  {
    if a == 0 then b
    else if b == 0 then a
    else 2 * BitOr(a / 2, b / 2) + (if a % 2 == 1 || b % 2 == 1 then 1 else 0)
  }

  /**
   * When a has its low k bits clear and b fits in k bits, no bit is set in
   * both, so OR is the sum.
   */
  lemma {:induction false} OrOfDisjointBits(q: nat, b: nat, k: nat)
    requires b < Pow2(k)
    ensures BitOr(q * Pow2(k), b) == q * Pow2(k) + b
  {
    var a := q * Pow2(k);
    if a != 0 && b != 0 {
      assert k > 0;
      assert a == 2 * (q * Pow2(k - 1));
      OrOfDisjointBits(q, b / 2, k - 1);
    }
  }

  /** `tempDigit |= thisDigit` on a pending high nibble and a digit below 16 adds them. */
  lemma OrIsSum(pending: nat, lo: nat)
    requires pending % 16 == 0 && lo < 16
    ensures BitOr(pending, lo) == pending + lo
  {
    assert Pow2(4) == 16;
    OrOfDisjointBits(pending / 16, lo, 4);
  }
}
