/** Integer facts shared by the group-argmax selection and the seek sampler:
    both count "how many steps of size `g` start below `n`". */
module Arith {

  /** Ceiling of `n / g`: Python's `(n + g - 1) // g`, and also the length of
      `range(0, n, g)`. */
  function CeilDiv(n: nat, g: nat): nat
    requires g >= 1
  {
    (n + g - 1) / g
  }

  lemma MulLe(a: nat, b: nat, g: nat)
    requires a <= b
    ensures a * g <= b * g
  {
    assert b * g == a * g + (b - a) * g;
  }

  /** `CeilDiv(n, g)` steps of size `g` cover `n`, and the last of them starts
      below `n`; it is 0 only for `n == 0`. */
  lemma CeilDivBounds(n: nat, g: nat)
    requires g >= 1
    ensures CeilDiv(n, g) * g >= n
    ensures CeilDiv(n, g) >= 1 ==> (CeilDiv(n, g) - 1) * g < n
    ensures CeilDiv(n, g) == 0 <==> n == 0
  {
    var q, r := (n + g - 1) / g, (n + g - 1) % g;
    assert n + g - 1 == q * g + r && 0 <= r < g;
    if q >= 1 {
      assert (q - 1) * g == q * g - g;
    }
    if n == 0 {
      assert q * g <= g - 1;
      if q >= 1 {
        MulLe(1, q, g);
      }
    }
  }

  /** `k * g < n` exactly for the first `CeilDiv(n, g)` values of `k`. */
  lemma BelowIffLess(n: nat, g: nat, k: nat)
    requires g >= 1
    ensures k * g < n <==> k < CeilDiv(n, g)
  {
    CeilDivBounds(n, g);
    if k < CeilDiv(n, g) {
      MulLe(k, CeilDiv(n, g) - 1, g);
    } else {
      MulLe(CeilDiv(n, g), k, g);
    }
  }

  /** A non-empty count of at most one step takes exactly one step. */
  lemma CeilDivOne(n: nat, g: nat)
    requires 1 <= n <= g
    ensures CeilDiv(n, g) == 1
  {
    CeilDivBounds(n, g);
    if CeilDiv(n, g) >= 2 {
      MulLe(1, CeilDiv(n, g) - 1, g);
    }
  }
}
