/** Remainders, from the ground up. */
module Remainders {
  lemma ScaleUp(a: int, b: int, k: nat)
    requires a <= b
    ensures a * k <= b * k
  {
  }

  /** A quotient, rounded down, is the largest number that can be multiplied back. */
  lemma QuotientAtMost(n: nat, x: nat, d: nat)
    requires d > 0
    ensures n <= x / d <==> n * d <= x
  {
    assert x == d * (x / d) + x % d;
    if n <= x / d {
      ScaleUp(n, x / d, d);
    } else {
      ScaleUp(x / d + 1, n, d);
      assert (x / d + 1) * d == d * (x / d) + d;
    }
  }

  lemma ExactQuotient(x: nat, d: nat)
    requires d > 0 && x % d == 0
    ensures (x / d) * d == x && (x > 0 ==> x / d > 0)
  {
  }

  lemma SmallMultiple(p: nat, d: int)
    requires 0 - p < p * d < p
    ensures d == 0
  {
  }

  /** Division with remainder has one answer. */
  lemma RemainderUnique(x: int, p: nat, q: int, r: nat)
    requires r < p && x == p * q + r
    ensures x % p == r
  {
    assert p * (x / p - q) == r - x % p;
    SmallMultiple(p, x / p - q);
  }

  lemma MultipleIsZero(y: int, p: nat, q: int)
    requires p > 0 && y == p * q
    ensures y % p == 0
  {
    RemainderUnique(y, p, q, 0);
  }

  /** Equal remainders mean a difference that is a multiple. */
  lemma SameRemainder(x: int, y: int, c: nat)
    requires c > 0
    ensures x % c == y % c <==> (x - y) % c == 0
  {
    if x % c == y % c {
      assert x - y == c * (x / c - y / c);
      MultipleIsZero(x - y, c, x / c - y / c);
    }
    if (x - y) % c == 0 {
      assert x == c * (y / c + (x - y) / c) + y % c;
      RemainderUnique(x, c, y / c + (x - y) / c, y % c);
    }
  }

  /** Reducing first modulo a multiple of `c` changes nothing modulo `c`. */
  lemma NestedRemainder(x: int, m: nat, c: nat)
    requires c > 0 && m > 0 && m % c == 0
    ensures (x % m) % c == x % c
  {
    var q := m / c;
    assert m == c * q;
    assert x - x % m == m * (x / m);
    assert m * (x / m) == c * (q * (x / m));
    MultipleIsZero(x - x % m, c, q * (x / m));
    SameRemainder(x, x % m, c);
  }

  /** A remainder may be taken before or after adding. */
  lemma AddRemainder(x: int, y: int, c: nat)
    requires c > 0
    ensures (x % c + y) % c == (x + y) % c
  {
    assert x == c * (x / c) + x % c;
    assert x + y - (x % c + y) == c * (x / c);
    MultipleIsZero(x + y - (x % c + y), c, x / c);
    SameRemainder(x + y, x % c + y, c);
  }

  /** Within a window of `c` consecutive numbers remainders are distinct. */
  lemma WindowInjective(x: int, y: int, c: nat)
    requires c > 0 && x % c == y % c && 0 - c < x - y < c
    ensures x == y
  {
    SameRemainder(x, y, c);
    assert x - y == c * ((x - y) / c);
    SmallMultiple(c, (x - y) / c);
  }

  /** The distance between two numbers survives taking remainders, if it is less than `m`. */
  lemma DeltaRemainder(x: int, y: int, m: nat)
    requires 0 < y - x < m
    ensures (y % m - x % m) % m == y - x && x % m != y % m
  {
    var k := x / m - y / m;
    assert x == m * (x / m) + x % m && y == m * (y / m) + y % m;
    assert y % m - x % m == m * k + (y - x);
    RemainderUnique(y % m - x % m, m, k, y - x);
    if x % m == y % m {
      WindowInjective(y, x, m);
    }
  }
}
