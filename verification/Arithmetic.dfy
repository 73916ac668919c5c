/** Powers of two, and division by a variable divisor, in the forms the other modules need. */
module Arithmetic {

  function Pow2(k: nat): (r: nat)
    ensures r > 0
  {
    if k == 0 then 1 else 2 * Pow2(k - 1)
  }

  lemma SubtractOne(n: nat, size: nat)
    requires size > 0 && n >= size
    ensures (n - size) % size == n % size && (n - size) / size == n / size - 1
  {
    var q, r := n / size, n % size;
    assert n - size == size * (q - 1) + r;
    ModIs(n - size, size, q - 1, r);
  }

  lemma SmallMultiple(size: int, d: int, e: int)
    requires size * d == e && -size < e < size
    ensures d == 0
  {
  }

  lemma ModIs(n: nat, size: nat, q: int, r: nat)
    requires n == size * q + r && r < size
    ensures n % size == r && n / size == q
  {
    var q', r' := n / size, n % size;
    assert n == size * q' + r';
    SmallMultiple(size, q' - q, r - r') by { assert size * (q' - q) == size * q' - size * q; }
  }

  /** n / size <= q exactly when n < (q + 1) * size. */
  lemma Divided(n: nat, size: nat, q: nat)
    requires size > 0
    ensures n / size <= q <==> n < q * size + size
    ensures n == n / size * size + n % size
  {
    var k := n / size;
    assert n == k * size + n % size;
    assert k <= q ==> k * size <= q * size;
    assert k > q ==> k * size >= (q + 1) * size == q * size + size;
  }
}
