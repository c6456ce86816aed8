/** Powers of two, and binary digits. */
module PowersOfTwo {

  function Pow2(k: nat): (p: nat)
    ensures p >= 1
  {
    if k == 0 then 1 else 2 * Pow2(k - 1)
  }

  lemma {:induction false} Pow2Monotone(i: nat, j: nat)
    requires i <= j
    ensures Pow2(i) <= Pow2(j)
  {
    if i < j { Pow2Monotone(i, j - 1); }
  }

  // Binary digit k of a number.
  function Digit(v: nat, k: nat): (d: nat)
    ensures d <= 1
    decreases k
  {
    if k == 0 then v % 2 else Digit(v / 2, k - 1)
  }
}
