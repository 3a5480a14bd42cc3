/** Facts about products, quotients and powers of two used by several modules. */
module Arithmetic {

  function Pow2(k: nat): (r: nat)
    ensures r >= 1
  {
    if k == 0 then 1 else 2 * Pow2(k - 1)
  }

  lemma Pow2Double(k: nat)
    ensures Pow2(k + 1) == 2 * Pow2(k)
  {
  }

  lemma {:induction false} Pow2Add(a: nat, b: nat)
    ensures Pow2(a) * Pow2(b) == Pow2(a + b)
  {
    if a > 0 {
      Pow2Add(a - 1, b);
      assert 2 * Pow2(a - 1) * Pow2(b) == 2 * (Pow2(a - 1) * Pow2(b));
    }
  }

  lemma MulGap(a: nat, b: nat, d: nat)
    requires a < b
    ensures a * d + d <= b * d
  {
    assert b * d == (a + 1) * d + (b - a - 1) * d;
    assert (a + 1) * d == a * d + d;
  }

  lemma CancelScale(a: nat, b: nat, p: nat)
    requires p > 0
    ensures a * p == b * p ==> a == b
  {
    if a < b {
      MulGap(a, b, p);
    } else if b < a {
      MulGap(b, a, p);
    }
  }

  lemma QuotientRemainder(x: nat, d: nat)
    requires d > 0
    ensures x == x / d * d + x % d
  {
  }

  lemma DivUnique(x: nat, d: nat, q: nat, r: nat)
    requires d > 0 && r < d && x == q * d + r
    ensures x / d == q && x % d == r
  {
    QuotientRemainder(x, d);
    if q < x / d {
      MulGap(q, x / d, d);
    } else if x / d < q {
      MulGap(x / d, q, d);
    }
  }

  lemma DivDiv(x: nat, a: nat, b: nat)
    requires a > 0 && b > 0
    ensures a * b > 0 && (x / a) / b == x / (a * b)
  {
    var q, r, s := x / a / b, x / a % b, x % a;
    QuotientRemainder(x, a);
    QuotientRemainder(x / a, b);
    assert x == q * (a * b) + (a * r + s) by {
      assert (q * b + r) * a == q * b * a + r * a;
      assert q * b * a == q * (a * b);
    }
    MulGap(r, b, a);
    assert b * a == a * b && r * a == a * r;
    DivUnique(x, a * b, q, a * r + s);
  }

  lemma ModStep(n: nat, d: nat)
    requires d > 0
    ensures (n % d + 1) % d == (n + 1) % d
  {
    var q, r := n / d, n % d;
    QuotientRemainder(n, d);
    if r + 1 < d {
      DivUnique(n + 1, d, q, r + 1);
      DivUnique(r + 1, d, 0, r + 1);
    } else {
      MulNext(q, d);
      DivUnique(n + 1, d, q + 1, 0);
      DivUnique(r + 1, d, 1, 0);
    }
  }

  lemma MulNext(q: nat, d: nat)
    ensures (q + 1) * d == q * d + d
  {
  }

  /** Reducing modulo a double and then modulo the number itself. */
  lemma ModOfDouble(h: nat, n: nat)
    requires n > 0
    ensures (h % (2 * n)) % n == h % n
  {
    ModOfMultiple(h, n, 2 * n);
  }

  lemma ModOfMultiple(h: nat, n: nat, m: nat)
    requires n > 0 && m == 2 * n
    ensures (h % m) % n == h % n
  {
    var q := Quotient(h, m);
    ModOfSum(h, n, m, q, h % m);
  }

  lemma Quotient(x: nat, d: nat) returns (q: nat)
    requires d > 0
    ensures x == q * d + x % d
  {
    q := x / d;
  }

  lemma ModOfSum(h: nat, n: nat, m: nat, q: nat, r: nat)
    requires n > 0 && m == 2 * n && h == q * m + r
    ensures h % n == r % n
  {
    QuotientRemainder(r, n);
    Regroup(h, n, m, q, r, r / n, r % n);
    DivUnique(h, n, 2 * q + r / n, r % n);
  }

  lemma Regroup(h: nat, n: nat, m: nat, q: nat, r: nat, a: nat, b: nat)
    requires m == 2 * n && h == q * m + r && r == a * n + b
    ensures h == (2 * q + a) * n + b
  {
    assert q * (2 * n) == 2 * q * n;
    assert (2 * q + a) * n == 2 * q * n + a * n;
  }

  lemma {:induction false} Pow2Monotone(a: nat, b: nat)
    requires a <= b
    ensures Pow2(a) <= Pow2(b)
  {
    if a < b {
      Pow2Monotone(a, b - 1);
    }
  }
}
