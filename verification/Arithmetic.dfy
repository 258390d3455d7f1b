/** Facts about products, quotients and remainders that several of the other modules use. */
module Arithmetic {

  lemma TimesMonotone(a: int, b: int, c: nat)
    requires a <= b
    ensures a * c <= b * c
  {
  }

  lemma Cancel(a: nat, b: nat, c: nat)
    requires c > 0 && a * c <= b * c
    ensures a <= b
  {
    if a > b {
      TimesMonotone(b + 1, a, c);
    }
  }

  lemma FloorAtLeast(n: nat, d: nat, q: nat)
    requires d > 0 && q * d <= n
    ensures q <= n / d
  {
    if q > n / d {
      TimesMonotone(n / d + 1, q, d);
    }
  }

  lemma FloorAtMost(n: nat, d: nat, q: nat)
    requires d > 0 && n < (q + 1) * d
    ensures n / d <= q
  {
    if n / d > q {
      TimesMonotone(q + 1, n / d, d);
    }
  }

  lemma FloorMonotone(a: nat, b: nat, d: nat)
    requires d > 0 && a <= b
    ensures a / d <= b / d
  {
    FloorAtLeast(b, d, a / d);
  }

  lemma FloorAntitone(n: nat, a: nat, b: nat)
    requires 0 < a <= b
    ensures 0 <= n / b <= n / a
  {
    FloorAtLeast(n, a, n / b);
  }

  lemma FloorBounds(n: nat, d: nat)
    requires d > 0
    ensures n / d * d <= n < (n / d + 1) * d == n / d * d + d
  {
  }

  lemma AtLeast(d: int, m: int)
    requires d >= 1 && m > 0
    ensures d * m >= m && -d * m == -(d * m)
  {
  }

  lemma RemainderIs(x: int, q: int, r: int, m: int)
    requires m > 0 && 0 <= r < m && x == q * m + r
    ensures x % m == r && x / m == q
  {
    var d := q - x / m;
    assert d * m == q * m - x / m * m == x % m - r;
    if d >= 1 {
      AtLeast(d, m);
    } else if d <= -1 {
      AtLeast(-d, m);
    }
  }

  lemma WrappedSum(a: nat, b: nat, m: nat)
    requires m > 0
    ensures (a % m + b) % m == (a + b) % m
  {
    var q, r := a / m, (a + b) / m;
    RemainderIs(a % m + b, r - q, (a + b) % m, m);
  }

  lemma Distribute(a: int, b: int, c: int)
    ensures (a + b) * c == a * c + b * c == c * a + b * c
  {
  }

  lemma Reassociate(a: int, b: int, c: int)
    ensures a * b * c == a * (b * c)
  {
  }

  /** A remainder of multiples is a multiple of the remainder. */
  lemma ScaledRemainder(k: nat, n: nat, s: nat)
    requires n > 0 && s > 0
    ensures n * s > 0 && k * s % (n * s) == k % n * s
    ensures k % n * s + s <= n * s
  {
    var q, r := k / n, k % n;
    TimesMonotone(1, n, s);
    TimesMonotone(r + 1, n, s);
    Distribute(r, 1, s);
    Reassociate(q, n, s);
    Distribute(q * n, r, s);
    TimesMonotone(0, r, s);
    RemainderIs(k * s, q, r * s, n * s);
  }
}
