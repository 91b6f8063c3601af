/** The few facts about products and quotients the page arithmetic rests on. */
module Arith {
  lemma MulStep(q: int, n: int)
    ensures (q + 1) * n == q * n + n
    ensures (q - 1) * n == q * n - n
  {
  }

  lemma MulMono(a: int, b: int, n: nat)
    requires a <= b
    ensures a * n <= b * n
  {
    assert (b - a) * n >= 0;
  }

  /** The quotient and remainder of `k` are the only way to split it. */
  lemma {:induction false} DivUnique(k: nat, n: nat, q: int, o: int)
    requires 0 < n && 0 <= o < n && k == q * n + o
    ensures k / n == q && k % n == o
  {
    var d := k / n;
    assert k == d * n + k % n;
    if d < q {
      MulMono(d + 1, q, n);
      MulStep(d, n);
      assert false;
    } else if q < d {
      MulMono(q + 1, d, n);
      MulStep(q, n);
      assert false;
    }
  }

  /** A position below `count * n` lies in one of the first `count` pages. */
  lemma DivBound(k: nat, n: nat, count: nat)
    requires 0 < n && k < count * n
    ensures k / n < count && k == (k / n) * n + k % n
  {
    if count <= k / n {
      MulMono(count, k / n, n);
    }
  }

  lemma DivAtLeast(n: nat, s: nat, q: nat)
    requires 0 < s && q * s <= n
    ensures q <= n / s
  {
    MulStep(n / s, s);
    if n / s < q {
      MulMono(n / s + 1, q, s);
    }
  }

  lemma MultipleMod(k: nat, n: nat)
    requires 0 < n
    ensures (k * n) % n == 0 && (k * n) / n == k
  {
    DivUnique(k * n, n, k, 0);
  }

  lemma MulAssoc(a: int, b: int, c: int)
    ensures a * (b * c) == (a * b) * c
  {
  }

  /** A common factor of number and divisor divides the remainder. */
  lemma ModKeepsFactor(b: nat, k: nat, m: nat)
    requires 0 < b && 0 < m && 0 < b * m
    ensures ((b * k) % (b * m)) % b == 0
  {
    var p := b * m;
    var q := (b * k) / p;
    var x := k - q * m;
    var r := (b * k) % p;
    assert r == b * k - q * p;
    assert q * p == b * (q * m) by { MulAssoc(q, b, m); MulAssoc(b, q, m); }
    assert r == b * x;
    if x < 0 { MulMono(x, -1, b); assert false; }
    MultipleMod(x, b);
  }

  /** Adding to a multiple. */
  lemma ModAdd(a: nat, r: nat, n: nat)
    requires 0 < n && a % n == 0 && r < n
    ensures (a + r) % n == r && (a + n) % n == 0
  {
    var q := a / n;
    MulStep(q, n);
    DivUnique(a + r, n, q, r);
    DivUnique(a + n, n, q + 1, 0);
  }
}
