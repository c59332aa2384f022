/** How many parts of a given size hold a number of items. */
module Paging {
  function CeilDiv(n: nat, k: nat): nat
    requires k > 0
  {
    if n == 0 then 0 else if n <= k then 1 else 1 + CeilDiv(n - k, k)
  }

  lemma {:induction false} CeilDivBounds(n: nat, k: nat)
    requires k > 0
    ensures n <= CeilDiv(n, k) * k < n + k
  {
    if n > k {
      CeilDivBounds(n - k, k);
    }
  }
}
