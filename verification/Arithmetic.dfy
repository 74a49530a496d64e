/** Division facts for a divisor that is not a constant. */
module Arithmetic {
  lemma {:induction false} DivModUnique(x: nat, k: nat, q: nat, r: nat)
    requires k > 0 && x == q * k + r && r < k
    ensures x / k == q && x % k == r
  {
    var d := x / k - q;
    assert x == x / k * k + x % k;
    assert d * k == r - x % k;
    assert d >= 1 ==> d * k >= k;
    assert d <= -1 ==> d * k + k <= 0;
  }

  lemma {:induction false} MultipleHasNoRemainder(q: nat, k: nat)
    requires k > 0
    ensures q * k % k == 0
  {
    if q > 0 {
      MultipleHasNoRemainder(q - 1, k);
      assert q * k == (q - 1) * k + k;
      var r := (q - 1) * k;
      assert r == r / k * k;
      assert r + k == (r / k + 1) * k + 0;
      DivModUnique(r + k, k, r / k + 1, 0);
    }
  }

  lemma {:induction false} RoundDown(x: nat, k: nat)
    requires k > 0
    ensures x / k * k % k == 0 && x - k < x / k * k <= x
  {
    assert x == x / k * k + x % k;
    MultipleHasNoRemainder(x / k, k);
  }

  /** Adding k to a multiple keeps the remainder, for a remainder that is one. */
  lemma {:induction false} SameRemainder(q: nat, k: nat, r: nat)
    requires r < k
    ensures (k * q + r) % k == r && (k * q + r) / k == q
  {
    DivModUnique(k * q + r, k, q, r);
  }
}
