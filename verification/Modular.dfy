/** Remainders and powers of ten. */
module Modular {
  ghost function Pow10(n: nat): int {
    if n == 0 then 1 else 10 * Pow10(n - 1)
  }

  lemma NextRemainder(c: nat, p: int)
    requires p > 1
    ensures c % p == p - 1 ==> (c + 1) % p == 0
    ensures c % p < p - 1 ==> (c + 1) % p == c % p + 1
  {
    var q, r := c / p, c % p;
    assert c == p * q + r;
    if r == p - 1 {
      assert c + 1 == p * (q + 1);
      Remainder(q + 1, 0, p);
    } else {
      Remainder(q, r + 1, p);
    }
  }

  lemma Remainder(q: int, r: int, p: int)
    requires 0 <= r < p
    ensures (p * q + r) % p == r
  {
    var m := (p * q + r) % p;
    var n := (p * q + r) / p;
    assert p * (n - q) == r - m;
    if n > q {
      MultipleIsFar(n - q, p);
    } else if n < q {
      MultipleIsFar(q - n, p);
    }
  }

  lemma MultipleIsFar(d: int, p: int)
    requires d > 0 && p > 0
    ensures p * d >= p
  {
  }

  lemma SameRemainder(j: nat, k: nat, p: int)
    requires j <= k && p > 1
    ensures j % p == k % p <==> (k - j) % p == 0
  {
    var q, r := j / p, j % p;
    var n, m := (k - j) / p, (k - j) % p;
    assert k == p * (q + n) + (r + m);
    if r + m < p {
      Remainder(q + n, r + m, p);
    } else {
      assert k == p * (q + n + 1) + (r + m - p);
      Remainder(q + n + 1, r + m - p, p);
    }
  }
}
