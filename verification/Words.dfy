/** The 32-bit machine words of the target (`uint32_t`, `unsigned`). */
module Words {
  const TWO32: int := 0x1_0000_0000

  type Word = x: int | 0 <= x < TWO32

  type Byte = x: int | 0 <= x < 256

  /** Unsigned 32-bit addition, wrapping around. */
  function Add32(a: int, b: int): Word {
    (a + b) % TWO32
  }

  /** Unsigned 32-bit subtraction, wrapping around. */
  function Sub32(a: int, b: int): Word {
    (a - b) % TWO32
  }

  lemma AtLeast(d: int, n: nat)
    requires d >= 1
    ensures d * n >= n
  {
    assert d * n == (d - 1) * n + n;
    assert (d - 1) * n >= 0;
  }

  /** A quotient and a remainder in range are the quotient and the remainder. */
  lemma ModUnique(x: int, q: int, r: nat, n: nat)
    requires x == q * n + r && r < n
    ensures x % n == r
  {
    var q', r' := x / n, x % n;
    assert x == q' * n + r';
    assert (q' - q) * n == r - r';
    assert (q - q') * n == r' - r;
    if q' > q {
      AtLeast(q' - q, n);
    } else if q > q' {
      AtLeast(q - q', n);
    }
  }

  lemma AddModulo(a: int, b: int, m: int)
    requires m > 0
    ensures (a % m + b) % m == (a + b) % m
  {
    var s := a % m + b;
    var q, q' := a / m, s / m;
    assert a + b == q * m + s && s == q' * m + s % m;
    assert (q + q') * m == q * m + q' * m;
    ModUnique(a + b, q + q', s % m, m);
  }

  lemma ModTimes(a: nat, x: int, m: nat)
    requires m > 0
    ensures a * (x % m) % m == a * x % m
  {
    var q, r := x / m, x % m;
    var q', r' := a * r / m, a * r % m;
    assert x == q * m + r && a * r == q' * m + r';
    assert a * x == (a * q + q') * m + r' by {
      assert a * (q * m + r) == a * (q * m) + a * r;
      assert a * (q * m) == (a * q) * m;
      assert (a * q + q') * m == (a * q) * m + q' * m;
    }
    ModUnique(a * x, a * q + q', r', m);
  }
}
