/** Powers of two, division with remainder, sizes of sets. */
module Arith {
  function Pow2(n: nat): (r: nat)
    ensures r >= 1
  {
    if n == 0 then 1 else 2 * Pow2(n - 1)
  }

  lemma ModUnique(x: nat, m: nat, q: nat, r: nat)
    requires x == q * m + r && r < m
    ensures x % m == r && x / m == q
  {
    var k := x / m - q;
    assert x == (x / m) * m + x % m;
    assert k * m == r - x % m;
    var n: int := m;
    assert k >= 1 ==> k * n >= n;
    assert k <= -1 ==> k * n <= -n;
  }

  lemma SubsetSize<T>(a: set<T>, b: set<T>)
    requires a <= b
    ensures |b - a| + |a| == |b|
  {
    assert b == (b - a) + a;
  }
}
