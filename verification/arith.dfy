/** Facts about Euclidean division that the byte codecs need, and the ascending
    order on integer sequences that the dictionary and the bins share. */
module Arith {

  /** Ascending (not necessarily strictly). */
  predicate SortedInts(s: seq<int>)
  {
    forall i, j :: 0 <= i <= j < |s| ==> s[i] <= s[j]
  }

  lemma MulPositive(d: int, x: int)
    requires d > 0 && x >= 1
    ensures d * x >= d
  {
    assert d * x == d + d * (x - 1);
  }

  /** Division with remainder has exactly one answer. */
  lemma DivUnique(n: int, d: int, q: int, r: int)
    requires d > 0 && 0 <= r < d && n == d * q + r
    ensures n / d == q && n % d == r
  {
    var x := q - n / d;
    assert d * x == n % d - r;
    if x >= 1 {
      MulPositive(d, x);
    } else if x <= -1 {
      MulPositive(d, -x);
    }
  }

  /** Dividing twice is dividing by the product (floor division, any sign of `n`). */
  lemma DivDiv(n: int, a: int, b: int)
    requires a > 0 && b > 0
    ensures a * b > 0
    ensures (n / a) / b == n / (a * b)
  {
    MulPositive(a, b);
    var q, r := n / a, n % a;
    var q2, r2 := q / b, q % b;
    assert n == a * q + r;
    assert q == b * q2 + r2;
    assert a * (b * q2 + r2) == a * (b * q2) + a * r2;
    assert a * (b * q2) == (a * b) * q2;
    assert n == (a * b) * q2 + (a * r2 + r);
    assert 0 <= a * r2 + r < a * b by {
      assert a * r2 <= a * (b - 1) by { MulMono(a, r2, b - 1); }
      assert a * (b - 1) == a * b - a;
      assert 0 <= a * r2 by { MulMono(a, 0, r2); }
    }
    DivUnique(n, a * b, q2, a * r2 + r);
  }

  lemma MulMono(a: int, x: int, y: int)
    requires a > 0 && x <= y
    ensures a * x <= a * y
  {
    assert a * y - a * x == a * (y - x);
    if y - x >= 1 { MulPositive(a, y - x); }
  }

  /** The remainder modulo `256 * p` splits into the digit above `p` and the remainder below it. */
  lemma ModSplit(v: int, p: int)
    requires p > 0
    ensures 256 * p > 0
    ensures v % (256 * p) == ((v / p) % 256) * p + v % p
  {
    DivDiv(v, p, 256);
    var q := v / p;
    var lo := v % p;
    var d := q % 256;
    assert q == 256 * (q / 256) + d;
    assert v == p * q + lo;
    calc {
      v;
      p * (256 * (q / 256) + d) + lo;
      (p * 256) * (q / 256) + (d * p + lo);
    }
    assert 0 <= d * p + lo < p * 256 by {
      MulMono(p, d, 255);
      MulMono(p, 0, d);
    }
    DivUnique(v, p * 256, q / 256, d * p + lo);
  }

  /** A quotient below `m` when the dividend is below `m` divisors. */
  lemma DivBelow(x: int, d: int, m: int)
    requires d > 0 && 0 <= x < d * m
    ensures x / d < m
  {
    var q := x / d;
    assert d * q <= x;
    assert d * (m - q) > 0;
  }
}
