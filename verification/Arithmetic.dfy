/** Facts about products, quotients and remainders that the solver does not find on its own. */
module Arithmetic {

  lemma MulMod(m: int, n: nat)
    requires n > 0
    ensures (m * n) % n == 0
  {
    ModPlusMultiple(0, m, n);
  }

  lemma {:induction false} ModPlusMultiple(a: int, q: int, n: nat)
    requires n > 0
    ensures (a + q * n) % n == a % n
    decreases if q < 0 then -q else q
  {
    if q > 0 {
      ModPlusMultiple(a + n, q - 1, n);
      assert (a + n) + (q - 1) * n == a + q * n;
      ModStep(a, n);
    } else if q < 0 {
      ModPlusMultiple(a - n, q + 1, n);
      assert (a - n) + (q + 1) * n == a + q * n;
      ModStep(a - n, n);
    }
  }

  lemma ModStep(a: int, n: nat)
    requires n > 0
    ensures (a + n) % n == a % n
  {
    var q, r := a / n, a % n;
    assert a + n == (q + 1) * n + r;
    DivModUnique(a + n, q + 1, r, n);
  }

  /** Quotient and remainder are unique. */
  lemma DivModUnique(a: int, q: int, r: int, n: nat)
    requires n > 0 && a == q * n + r && 0 <= r < n
    ensures a % n == r && a / n == q
  {
    var q', r' := a / n, a % n;
    assert a == q' * n + r';
    SmallMultiple(q - q', r' - r, n);
    assert n * (q - q') == n * 0;
    CancelFactor(n, q - q', 0);
  }

  lemma SmallMultiple(k: int, d: int, n: nat)
    requires k * n == d && d < n && d + n > 0
    ensures d == 0
  {
    assert (-k) * n == -d;
    if k >= 1 {
      AtLeastOnce(k, n);
    } else if k <= -1 {
      AtLeastOnce(-k, n);
    }
  }

  lemma {:induction false} AtLeastOnce(k: int, n: nat)
    requires k >= 1
    ensures k * n >= n
  {
    if k > 1 {
      AtLeastOnce(k - 1, n);
      assert k * n == (k - 1) * n + n;
    }
  }

  lemma ModDifference(a: int, b: int, n: nat)
    requires n > 0
    ensures a % n == b % n <==> (b - a) % n == 0
  {
    var q, r, q', r' := a / n, a % n, b / n, b % n;
    assert a == q * n + r && b == q' * n + r';
    assert b - a == (r' - r) + (q' - q) * n;
    ModPlusMultiple(r' - r, q' - q, n);
    SmallModIff(r' - r, n);
  }

  lemma SmallModIff(d: int, n: nat)
    requires d < n && d + n > 0
    ensures d % n == 0 <==> d == 0
  {
    if d % n == 0 {
      var t := d / n;
      assert d == t * n;
      SmallMultiple(t, d, n);
    }
  }

  lemma CancelFactor(g: nat, a: int, b: int)
    requires g > 0 && g * a == g * b
    ensures a == b
  {
    assert (a - b) * g == 0;
    if a > b {
      AtLeastOnce(a - b, g);
    } else if a < b {
      AtLeastOnce(b - a, g);
    }
  }
}
