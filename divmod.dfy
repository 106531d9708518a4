/** Facts about multiplication and Euclidean division used by the partition proofs. */
module DivMod {

  lemma MulMonotone(a: int, b: int, c: int)
    requires a <= b && c >= 0
    ensures a * c <= b * c
  {
    assert b * c - a * c == (b - a) * c;
  }

  lemma MulAssoc(a: int, b: int, c: int)
    ensures a * (b * c) == (a * b) * c
  {
  }

  lemma MulSucc(j: int, d: int)
    ensures (j + 1) * d == j * d + d
  {
  }

  /** A value in [q*d, q*d + d) has quotient q and remainder p - q*d. */
  lemma DivOfRange(p: int, d: int, q: int)
    requires d > 0 && q * d <= p < q * d + d
    ensures p / d == q && p % d == p - q * d
  {
    var q', r := p / d, p % d;
    assert p == q' * d + r && 0 <= r < d;
    assert (q' + 1) * d == q' * d + d && (q + 1) * d == q * d + d;
    if q' < q {
      MulMonotone(q' + 1, q, d);
    } else if q' > q {
      MulMonotone(q + 1, q', d);
    }
  }

  /** k * d stays within m exactly when k stays within m / d. */
  lemma MulLeIffLeDiv(k: int, d: int, m: int)
    requires d > 0
    ensures k * d <= m <==> k <= m / d
  {
    var q := m / d;
    assert q * d <= m < q * d + d;
    if k <= q {
      MulMonotone(k, q, d);
    } else {
      MulMonotone(q + 1, k, d);
      assert (q + 1) * d == q * d + d;
    }
  }

  /** For 0 <= i < d, j leaves remainder i exactly when j - i is a non-negative multiple of d. */
  lemma RemainderOffset(j: int, i: int, d: int)
    requires 0 <= i < d && 0 <= j
    ensures j % d == i <==> i <= j && (j - i) % d == 0
  {
    var q, q' := j / d, (j - i) / d;
    assert j == q * d + j % d;
    assert j - i == q' * d + (j - i) % d;
    if j % d == i {
      DivOfRange(j - i, d, q);
    }
    if (j - i) % d == 0 {
      DivOfRange(j, d, q');
    }
  }

  /** Adding the divisor keeps the remainder. */
  lemma ModAddDivisor(x: int, d: int)
    requires d > 0
    ensures (x + d) % d == x % d
  {
    var q := x / d;
    assert x == q * d + x % d;
    assert (q + 1) * d == q * d + d;
    DivOfRange(x + d, d, q + 1);
  }

  /** Two values less than one divisor apart have different remainders. */
  lemma ModDiffersWithinStride(x: int, y: int, d: int)
    requires d > 0 && x < y < x + d
    ensures y % d != x % d
  {
    var q, r := x / d, x % d;
    assert x == q * d + r;
    if r + (y - x) < d {
      DivOfRange(y, d, q);
    } else {
      assert (q + 1) * d == q * d + d;
      DivOfRange(y, d, q + 1);
    }
  }
}
