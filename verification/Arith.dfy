/** Powers of two and division by them. */
module Arith {
  type Byte = b: nat | b < 256

  function Pow2(n: nat): (r: nat)
    ensures r >= 1
  {
    if n == 0 then 1 else 2 * Pow2(n - 1)
  }

  lemma {:induction false} Pow2Monotone(m: nat, n: nat)
    requires m <= n
    ensures Pow2(m) <= Pow2(n)
    decreases n
  {
    if m < n { Pow2Monotone(m, n - 1); }
  }

  lemma {:induction false} Pow2Add(m: nat, n: nat)
    ensures Pow2(m + n) == Pow2(m) * Pow2(n)
  {
    if m > 0 {
      Pow2Add(m - 1, n);
      assert Pow2(m + n) == 2 * Pow2(m - 1 + n);
    }
  }

  lemma MulAtLeast(d: nat, k: nat)
    requires d >= 1
    ensures d * k >= k
  {
    assert d * k == (d - 1) * k + k;
  }

  lemma DivUnique(x: int, q: int, r: nat, k: nat)
    requires r < k && x == q * k + r
    ensures x / k == q && x % k == r
  {
    var d := x / k - q;
    assert d * k == r - x % k by {
      assert x == x / k * k + x % k;
      assert d * k == x / k * k - q * k;
    }
    if d >= 1 {
      MulAtLeast(d, k);
    } else if d <= -1 {
      assert (-d) * k == -(d * k);
      MulAtLeast(-d, k);
    }
  }

  lemma DivMod(x: nat, k: nat)
    requires k > 0
    ensures x / k * k <= x < x / k * k + k
    ensures x == x / k * k + x % k
  {
  }

  lemma ModOfMultiple(q: int, k: nat)
    requires k > 0
    ensures (q * k) % k == 0
  {
    DivUnique(q * k, q, 0, k);
  }

  lemma {:induction false} MulMonotone(a: nat, b: nat, k: nat)
    requires a <= b
    ensures a * k <= b * k
  {
    assert b * k == a * k + (b - a) * k;
  }

  lemma DivAdd(q: nat, r: nat, k: nat)
    requires k > 0
    ensures (q * k + r) / k == q + r / k
  {
    DivMod(r, k);
    assert (q + r / k) * k == q * k + r / k * k;
    DivUnique(q * k + r, q + r / k, r % k, k);
  }

  lemma DivMonotone(x: nat, y: nat, k: nat)
    requires k > 0 && x <= y
    ensures x / k <= y / k
  {
    DivMod(x, k);
    DivAdd(x / k, y - x / k * k, k);
  }

  /** A multiple of k below n * k leaves room for one more k. */
  lemma RoomForOne(x: nat, n: nat, k: nat)
    requires k > 0 && x % k == 0 && x < n * k
    ensures x + k <= n * k
  {
    DivMod(x, k);
    if n <= x / k {
      MulMonotone(n, x / k, k);
    } else {
      MulMonotone(x / k + 1, n, k);
      assert (x / k + 1) * k == x / k * k + k;
    }
  }
}
