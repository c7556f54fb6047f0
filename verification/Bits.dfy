/**
 Shifts, masks and bitwise operations of unsigned words of any width, on natural numbers.
 Everything is defined bit by bit; LowAndHigh says what the shifts and remainders mean.
 */
module Bits {

  /** a * 2^k. */
  function Up(a: nat, k: nat): (r: nat)
    ensures r >= a
  {
    if k == 0 then a else 2 * Up(a, k - 1)
  }

  /** a / 2^k. */
  function Shr(a: nat, k: nat): nat {
    if k == 0 then a else Shr(a / 2, k - 1)
  }

  /** a modulo 2^k. */
  function Low(a: nat, k: nat): nat {
    if k == 0 then 0 else 2 * Low(a / 2, k - 1) + a % 2
  }

  /** Bits shifted beyond the width are lost. */
  function Shl(a: nat, k: nat, width: nat): nat { Low(Up(a, k), width) }

  function And(a: nat, b: nat): nat {
    if a == 0 || b == 0 then 0 else
      2 * And(a / 2, b / 2) + if a % 2 == 1 && b % 2 == 1 then 1 else 0
  }

  function Or(a: nat, b: nat): nat {
    if a == 0 then b else if b == 0 then a else
      2 * Or(a / 2, b / 2) + if a % 2 == 1 || b % 2 == 1 then 1 else 0
  }

  /** Quotient and remainder of a division by 2^k. */
  lemma {:induction false} LowAndHigh(a: nat, k: nat)
    ensures a == Up(Shr(a, k), k) + Low(a, k) && Low(a, k) < Up(1, k)
    decreases k
  {
    if k > 0 { LowAndHigh(a / 2, k - 1); }
  }

  lemma {:induction false} LowOfSum(a: nat, b: nat, k: nat)
    requires a < Up(1, k)
    ensures Low(a + Up(b, k), k) == a && Shr(a + Up(b, k), k) == b
    decreases k
  {
    if k > 0 {
      LowOfSum(a / 2, b, k - 1);
      assert (a + Up(b, k)) / 2 == a / 2 + Up(b, k - 1);
    }
  }

  lemma {:induction false} UpZero(k: nat)
    ensures Up(0, k) == 0
  {
    if k > 0 { UpZero(k - 1); }
  }

  lemma LowOfSmall(a: nat, k: nat)
    requires a < Up(1, k)
    ensures Low(a, k) == a && Shr(a, k) == 0
  {
    UpZero(k);
    LowOfSum(a, 0, k);
  }

  lemma {:induction false} UpSum(a: nat, b: nat, k: nat)
    ensures Up(a + b, k) == Up(a, k) + Up(b, k)
  {
    if k > 0 { UpSum(a, b, k - 1); }
  }

  lemma {:induction false} UpUp(a: nat, j: nat, k: nat)
    ensures Up(Up(a, j), k) == Up(a, j + k)
    decreases k
  {
    if k > 0 { UpUp(a, j, k - 1); }
  }

  lemma {:induction false} ShrShr(a: nat, j: nat, k: nat)
    ensures Shr(Shr(a, j), k) == Shr(a, j + k)
    decreases j
  {
    if j > 0 { ShrShr(a / 2, j - 1, k); }
  }

  lemma {:induction false} UpMono(a: nat, b: nat, k: nat)
    ensures a <= b ==> Up(a, k) <= Up(b, k)
    ensures a < b ==> Up(a, k) < Up(b, k)
  {
    if k > 0 { UpMono(a, b, k - 1); }
  }

  lemma Up8(x: nat)
    ensures Up(x, 8) == 256 * x
  {
    assert Up(x, 2) == 2 * Up(x, 1) == 4 * x;
    assert Up(x, 4) == 2 * Up(x, 3) == 4 * Up(x, 2);
    assert Up(x, 8) == 2 * Up(x, 7) == 4 * Up(x, 6) == 8 * Up(x, 5) == 256 * x;
  }

  lemma PowersOfTwo()
    ensures Up(1, 8) == 256 && Up(1, 16) == 65536 && Up(1, 32) == 0x1_0000_0000
  {
    assert Up(1, 4) == 2 * Up(1, 3) == 16;
    assert Up(1, 8) == 2 * Up(1, 7) == 4 * Up(1, 6) == 8 * Up(1, 5) == 256;
    Up8(256);
    UpUp(1, 8, 8);
    Up8(65536);
    UpUp(1, 16, 8);
    Up8(16777216);
    UpUp(1, 24, 8);
  }

  /** A number below 2^j shifted up by k is below 2^(j + k). */
  lemma UpBelow(a: nat, j: nat, k: nat, b: nat)
    requires a < Up(1, j) && b < Up(1, k)
    ensures b + Up(a, k) < Up(1, j + k)
  {
    UpMono(a + 1, Up(1, j), k);
    UpSum(a, 1, k);
    UpUp(1, j, k);
  }

  lemma {:induction false} WiderIsLarger(j: nat, k: nat)
    requires j <= k
    ensures Up(1, j) <= Up(1, k)
    decreases k
  {
    if j < k { WiderIsLarger(j, k - 1); }
  }

  /** A mask of k ones keeps the remainder modulo 2^k. */
  lemma {:induction false} AndLowMask(a: nat, k: nat)
    ensures Up(1, k) > 0 && And(a, Up(1, k) - 1) == Low(a, k)
    decreases k
  {
    if k > 0 {
      AndLowMask(a / 2, k - 1);
      AndStep(a, Up(1, k) - 1);
    }
  }

  lemma AndStep(a: nat, b: nat)
    ensures And(a, b) == 2 * And(a / 2, b / 2) + if a % 2 == 1 && b % 2 == 1 then 1 else 0
  {
  }

  /** A mask above k zeros keeps what lies above the lowest k bits. */
  lemma {:induction false} AndHighMask(a: nat, m: nat, k: nat)
    ensures And(a, Up(m, k)) == Up(And(Shr(a, k), m), k)
    decreases k
  {
    if k > 0 {
      AndHighMask(a / 2, m, k - 1);
      AndStep(a, Up(m, k));
    }
  }

  lemma OrStep(a: nat, b: nat)
    ensures Or(a, b) == 2 * Or(a / 2, b / 2) + if a % 2 == 1 || b % 2 == 1 then 1 else 0
  {
  }

  /** Or of numbers that share no bit is their sum. */
  lemma {:induction false} OrDisjoint(a: nat, b: nat, k: nat)
    requires a < Up(1, k)
    ensures Or(a, Up(b, k)) == Or(Up(b, k), a) == a + Up(b, k)
    decreases k
  {
    if k > 0 {
      OrDisjoint(a / 2, b, k - 1);
      OrStep(a, Up(b, k));
      OrStep(Up(b, k), a);
    }
  }
}
