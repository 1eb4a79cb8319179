/**
 * Exact powers of two and the floor of the binary logarithm of a positive
 * real, defined by its characterising property: FloorLog2(r) is the unique
 * k with 2^k <= r < 2^(k+1).
 */
module Log2 {

  /** 2^k as an exact real, for every integer k (a negative k gives 1 / 2^-k). */
  function Pow2(k: int): (p: real)
    ensures p > 0.0
    decreases if k >= 0 then k else -k
  {
    if k == 0 then 1.0
    else if k > 0 then 2.0 * Pow2(k - 1)
    else Pow2(k + 1) / 2.0
  }

  lemma Pow2Succ(k: int)
    ensures Pow2(k + 1) == 2.0 * Pow2(k)
  {
  }

  lemma {:induction false} Pow2Monotone(j: int, k: int)
    requires j <= k
    ensures Pow2(j) <= Pow2(k)
    decreases k - j
  {
    if j < k {
      Pow2Monotone(j, k - 1);
      Pow2Succ(k - 1);
    }
  }

  /** The floor of log2 r: halve or double r until it lies in [1, 2). */
  function FloorLog2(r: real): (k: int)
    requires r > 0.0
    ensures Pow2(k) <= r < Pow2(k + 1)
    decreases if r < 1.0 then 1 else 0, if r < 1.0 then (1.0 / r).Floor else r.Floor
  {
    if r < 1.0 then
      var k := FloorLog2(2.0 * r);
      Pow2Succ(k - 1);
      k - 1
    else if r < 2.0 then
      0
    else
      var k := FloorLog2(r / 2.0);
      Pow2Succ(k);
      Pow2Succ(k + 1);
      k + 1
  }

  /** The bracket 2^k <= r < 2^(k+1) determines k: FloorLog2 is the only such k. */
  lemma {:induction false} FloorLog2Unique(r: real, k: int)
    requires r > 0.0
    requires Pow2(k) <= r < Pow2(k + 1)
    ensures FloorLog2(r) == k
  {
    var m := FloorLog2(r);
    if m < k {
      Pow2Monotone(m + 1, k);
    } else if k < m {
      Pow2Monotone(k + 1, m);
    }
  }

  /** The ceiling of log2 r, from the floor: equal to it exactly at powers of two. */
  function CeilLog2(r: real): (c: int)
    requires r > 0.0
    ensures Pow2(c - 1) < r <= Pow2(c)
  {
    var k := FloorLog2(r);
    Pow2Succ(k - 1);
    if r == Pow2(k) then k else k + 1
  }
}
