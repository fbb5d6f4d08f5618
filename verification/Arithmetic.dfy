/** Division facts that the closed forms of the other modules rest on. */
module Arithmetic {

  lemma ModStep(k: nat, p: nat)
    requires p > 0
    ensures (k + 1) % p == if k % p + 1 == p then 0 else k % p + 1
  {
    var q, r := k / p, k % p;
    assert k == p * q + r;
    if r + 1 == p {
      assert k + 1 == p * (q + 1);
      ModUnique(k + 1, p, q + 1, 0);
    } else {
      ModUnique(k + 1, p, q, r + 1);
    }
  }

  lemma {:induction false} ModUnique(k: nat, p: nat, q: nat, r: nat)
    requires p > 0 && r < p && k == p * q + r
    ensures k % p == r
  {
    if q > 0 {
      assert p * q == p * (q - 1) + p;
      ModUnique(k - p, p, q - 1, r);
      ModMinus(k, p);
    }
  }

  lemma ModMinus(k: nat, p: nat)
    requires 0 < p <= k
    ensures k % p == (k - p) % p
  {
    var x, y := k / p, (k - p) / p;
    assert k == p * x + k % p && k - p == p * y + (k - p) % p;
    NoMultiple(p, x - y - 1, (k - p) % p - k % p);
  }

  lemma NoMultiple(p: nat, x: int, d: int)
    requires p > 0 && p * x == d && 0 - p < d < p
    ensures d == 0
  {
    assert x >= 1 ==> p * x >= p;
    assert x <= -1 ==> p * x <= 0 - p;
  }

  /** Two different multiples of c are at least c apart. */
  lemma MultiplesApart(a: nat, c: nat, b: nat)
    requires c > 0 && a % c == 0 && b % c == 0 && a < b
    ensures a + c <= b
  {
    var p, q := a / c, b / c;
    assert a == c * p && b == c * q;
    assert q <= p ==> c * q <= c * p;
    assert p + 1 <= q ==> c * (p + 1) <= c * q;
  }
}
