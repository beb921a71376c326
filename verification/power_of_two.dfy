/** Integer replacement for `2 ** math.ceil(math.log2(n))`, the bracket
    size computed at main.py:42 and bracket.py:17. */
module PowerOfTwo {

  /** 2 raised to `k`. */
  function Pow2(k: nat): (p: nat)
    ensures p >= 1
  {
    if k == 0 then 1 else 2 * Pow2(k - 1)
  }

  /** True when `p` is a power of two. */
  predicate IsPow2(p: nat) {
    if p <= 1 then p == 1 else p % 2 == 0 && IsPow2(p / 2)
  }

  /** The least power of two that is at least `n`. */
  function NextPow2(n: nat): (p: nat)
    ensures IsPow2(p)
    ensures n <= p
    ensures p == 1 || p / 2 < n
  {
    if n <= 1 then 1 else 2 * NextPow2((n + 1) / 2)
  }

  /** `IsPow2` holds exactly of the values `Pow2(k)`. */
  lemma {:induction false} Pow2IsPow2(k: nat)
    ensures IsPow2(Pow2(k))
  {
    if k > 0 {
      Pow2IsPow2(k - 1);
      assert Pow2(k) / 2 == Pow2(k - 1);
    }
  }

  /** Every power of two is `Pow2(k)` for the `k` that `Log2` computes. */
  function Log2(p: nat): (k: nat)
    requires IsPow2(p)
    ensures Pow2(k) == p
  {
    if p <= 1 then 0 else 1 + Log2(p / 2)
  }

  /** `Log2` undoes `Pow2`. */
  lemma {:induction false} Log2OfPow2(k: nat)
    ensures IsPow2(Pow2(k)) && Log2(Pow2(k)) == k
  {
    Pow2IsPow2(k);
    if k > 0 {
      Log2OfPow2(k - 1);
      assert Pow2(k) / 2 == Pow2(k - 1);
    }
  }

  /** A power of two other than 1 is even, and halving it gives a power
      of two. */
  lemma HalfOfPow2(p: nat)
    requires IsPow2(p) && p >= 2
    ensures p % 2 == 0 && IsPow2(p / 2) && p / 2 >= 1
  {
  }

  /** `NextPow2(n)` is the least power of two not below `n`: any other
      power of two that is at least `n` is at least as large. */
  lemma {:induction false} NextPow2IsLeast(n: nat, q: nat)
    requires IsPow2(q) && n <= q
    ensures NextPow2(n) <= q
  {
    if n > 1 {
      assert q >= 2;
      NextPow2IsLeast((n + 1) / 2, q / 2);
    }
  }

  /** For at least two entrants the bracket size is even and at least 2. */
  lemma NextPow2Even(n: nat)
    requires n >= 2
    ensures NextPow2(n) >= 2 && NextPow2(n) % 2 == 0
  {
  }
}
