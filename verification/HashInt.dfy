/** The integer hash of src/core/hash_map.c, with 64-bit size_t. */
module HashInts {
  import opened HashMaps
  import opened Remainders
  import opened SlotTable

  const KNUTHS_CONSTANT: nat := 2654435761
  const SIZE_MODULUS: nat := 0x1_0000_0000_0000_0000

  /** A C int. */
  newtype Int32 = x: int | -0x8000_0000 <= x < 0x8000_0000

  /** A negative key sign-extends to 64 bits; the product wraps. */
  function HashInt(pid: Int32): (h: nat)
    ensures h < SIZE_MODULUS
  {
    (((pid as int) % SIZE_MODULUS) * KNUTHS_CONSTANT) % SIZE_MODULUS
  }

  /** The product fits 64 bits, so nothing but the sign is lost. */
  lemma HashIntValue(pid: Int32)
    ensures HashInt(pid) == (if pid < 0 then 18446744073709551616 else 0) + 2654435761 * pid as int
  {
    var p := pid as int;
    if p < 0 {
      RemainderUnique(p, SIZE_MODULUS, -1, SIZE_MODULUS + p);
      RemainderUnique((SIZE_MODULUS + p) * KNUTHS_CONSTANT, SIZE_MODULUS,
                      KNUTHS_CONSTANT - 1, SIZE_MODULUS + p * KNUTHS_CONSTANT);
    }
  }

  function Pow2(k: nat): (r: nat)
    ensures r > 0
  {
    if k == 0 then 1 else 2 * Pow2(k - 1)
  }

  lemma {:induction false} CapacityIsPow2(capacity: nat)
    requires IsCapacity(capacity)
    ensures exists k: nat :: k >= 4 && capacity == Pow2(k)
  {
    if capacity == MINIMUM_CAPACITY {
      assert Pow2(4) == 16;
    } else {
      CapacityIsPow2(capacity / 2);
      var k: nat :| k >= 4 && capacity / 2 == Pow2(k);
      assert Pow2(k + 1) == capacity;
    }
  }

  /** An odd factor does not matter to divisibility by a power of two. */
  lemma {:induction false} OddFactor(odd: int, x: int, k: nat)
    requires odd % 2 == 1
    ensures (odd * x) % Pow2(k) == 0 <==> x % Pow2(k) == 0
    decreases k
  {
    if k > 0 {
      var p := Pow2(k - 1);
      if x % 2 == 0 {
        OddFactor(odd, x / 2, k - 1);
        Halve(x / 2, p);
        Halve(odd * (x / 2), p);
        TwiceProduct(odd, x);
      } else {
        ParityOfProduct(odd, x);
        OddIsNoMultiple(x, p);
        OddIsNoMultiple(odd * x, p);
      }
    }
  }

  lemma TwiceProduct(a: int, x: int)
    requires x % 2 == 0
    ensures a * x == 2 * (a * (x / 2))
  {
    assert x == 2 * (x / 2);
  }

  lemma Halve(y: int, p: nat)
    requires p > 0
    ensures (2 * y) % (2 * p) == 0 <==> y % p == 0
  {
    if y % p == 0 {
      assert y == p * (y / p);
      assert 2 * y == (2 * p) * (y / p);
      MultipleIsZero(2 * y, 2 * p, y / p);
    }
    if (2 * y) % (2 * p) == 0 {
      var q := (2 * y) / (2 * p);
      assert 2 * y == (2 * p) * q;
      assert y == p * q;
      MultipleIsZero(y, p, q);
    }
  }

  lemma OddIsNoMultiple(x: int, p: nat)
    requires p > 0 && x % 2 == 1
    ensures x % (2 * p) != 0
  {
    assert x == 2 * (p * (x / (2 * p))) + x % (2 * p);
  }

  lemma ParityOfProduct(a: int, b: int)
    requires a % 2 == 1 && b % 2 == 1
    ensures (a * b) % 2 == 1
  {
    var i, j := a / 2, b / 2;
    assert a == 2 * i + 1 && b == 2 * j + 1;
    assert a * b == 2 * (2 * (i * j) + i + j) + 1;
  }

  lemma {:induction false} Pow2Sum(a: nat, b: nat)
    ensures Pow2(a + b) == Pow2(a) * Pow2(b)
  {
    if a > 0 {
      Pow2Sum(a - 1, b);
    }
  }

  lemma Pow2Of64()
    ensures Pow2(64) == SIZE_MODULUS
  {
    assert Pow2(8) == 256;
    Pow2Sum(8, 8);
    Pow2Sum(16, 16);
    Pow2Sum(32, 32);
  }

  lemma Pow2DividesSize(k: nat)
    requires k <= 64
    ensures SIZE_MODULUS % Pow2(k) == 0
  {
    Pow2Of64();
    Pow2Sum(k, 64 - k);
    MultipleIsZero(SIZE_MODULUS, Pow2(k), Pow2(64 - k));
  }

  /** Modulo a power of two that fits size_t, the hash is the key times the constant. */
  lemma HashModulo(pid: Int32, k: nat)
    requires k <= 64
    ensures HashInt(pid) % Pow2(k) == (KNUTHS_CONSTANT * (pid as int)) % Pow2(k)
  {
    var c, p := Pow2(k), pid as int;
    Pow2DividesSize(k);
    NestedRemainder((p % SIZE_MODULUS) * KNUTHS_CONSTANT, SIZE_MODULUS, c);
    var q := p / SIZE_MODULUS;
    assert p - p % SIZE_MODULUS == SIZE_MODULUS * q;
    assert KNUTHS_CONSTANT * p - (p % SIZE_MODULUS) * KNUTHS_CONSTANT == SIZE_MODULUS * (q * KNUTHS_CONSTANT);
    MultipleIsZero(KNUTHS_CONSTANT * p - (p % SIZE_MODULUS) * KNUTHS_CONSTANT, SIZE_MODULUS, q * KNUTHS_CONSTANT);
    SameRemainder(KNUTHS_CONSTANT * p, (p % SIZE_MODULUS) * KNUTHS_CONSTANT, SIZE_MODULUS);
    NestedRemainder(KNUTHS_CONSTANT * p, SIZE_MODULUS, c);
  }

  /** Two keys share a home slot exactly when they are congruent modulo the capacity. */
  lemma SameHome(a: Int32, b: Int32, capacity: nat)
    requires IsCapacity(capacity) && capacity < SIZE_MODULUS
    ensures Home(HashInt, a, capacity) == Home(HashInt, b, capacity) <==> (a as int) % capacity == (b as int) % capacity
  {
    CapacityIsPow2(capacity);
    var k: nat :| k >= 4 && capacity == Pow2(k);
    if k >= 64 {
      LargeExponent(k);
    }
    HashModulo(a, k);
    HashModulo(b, k);
    var x, y := a as int, b as int;
    SameRemainder(KNUTHS_CONSTANT * x, KNUTHS_CONSTANT * y, capacity);
    assert KNUTHS_CONSTANT * x - KNUTHS_CONSTANT * y == KNUTHS_CONSTANT * (x - y);
    OddFactor(KNUTHS_CONSTANT, x - y, k);
    SameRemainder(x, y, capacity);
  }

  lemma LargeExponent(k: nat)
    requires k >= 64
    ensures Pow2(k) >= SIZE_MODULUS
  {
    Pow2Of64();
    Pow2Sum(64, k - 64);
  }

  /** A table's worth of consecutive process ids never collide at their home slots. */
  lemma ConsecutiveKeysSpread(first: Int32, i: nat, j: nat, capacity: nat)
    requires IsCapacity(capacity) && capacity < SIZE_MODULUS
    requires i < j < capacity && first as int + j < 0x8000_0000
    ensures Home(HashInt, (first as int + i) as Int32, capacity) != Home(HashInt, (first as int + j) as Int32, capacity)
  {
    var a, b := first as int + i, first as int + j;
    RemainderUnique(b - a, capacity, 0, j - i);
    SameRemainder(b, a, capacity);
    SameHome(a as Int32, b as Int32, capacity);
  }
}
