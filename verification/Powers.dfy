/** Powers of two, and clearing low bits. */
module Powers {
  function Pow2(n: nat): nat { if n == 0 then 1 else 2 * Pow2(n - 1) }

  lemma {:induction false} Pow2Mono(m: nat, n: nat)
    requires m <= n
    ensures 1 <= Pow2(m) <= Pow2(n)
    decreases n - m, n
  {
    if m < n {
      Pow2Mono(m, n - 1);
    } else if m > 0 {
      Pow2Mono(m - 1, n - 1);
    }
  }

  /** `x & ~(2^e - 1)`: the bits from the lowest up to `e` are dropped. */
  function MaskOff(x: nat, e: nat): nat {
    if e == 0 then x else 2 * MaskOff(x / 2, e - 1)
  }

  /** Clearing the low bits leaves the greatest multiple of the power of two that is not above. */
  lemma {:induction false} MaskOffMultiple(x: nat, e: nat) returns (q: nat)
    ensures MaskOff(x, e) == q * Pow2(e) && MaskOff(x, e) <= x < MaskOff(x, e) + Pow2(e)
    decreases e
  {
    if e == 0 {
      q := x;
    } else {
      q := MaskOffMultiple(x / 2, e - 1);
      assert q * Pow2(e) == 2 * (q * Pow2(e - 1)) by { DoubleOut(q, Pow2(e - 1)); }
    }
  }

  lemma DoubleOut(q: nat, p: nat)
    ensures q * (2 * p) == 2 * (q * p)
  {
  }
}
