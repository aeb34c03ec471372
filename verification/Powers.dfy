/** Powers of two and the 64-bit unsigned type size_t. */
module Powers {
  /** One more than the largest size_t. */
  const SIZE_LIMIT := 0x1_0000_0000_0000_0000

  function Pow2(k: nat): (r: nat)
    ensures r > 0
  {
    if k == 0 then 1 else 2 * Pow2(k - 1)
  }

  lemma {:induction false} Pow2Add(a: nat, b: nat)
    ensures Pow2(a + b) == Pow2(a) * Pow2(b)
  {
    if a > 0 {
      Pow2Add(a - 1, b);
      TwiceProduct(Pow2(a - 1), Pow2(b));
    }
  }

  lemma TwiceProduct(x: nat, y: nat)
    ensures 2 * (x * y) == (2 * x) * y
  {
  }

  lemma {:induction false} Pow2Monotone(a: nat, b: nat)
    requires a <= b
    ensures Pow2(a) <= Pow2(b)
    ensures a < b ==> 2 * Pow2(a) <= Pow2(b)
    decreases b
  {
    if a < b { Pow2Monotone(a, b - 1); }
  }

  lemma Pow2Values()
    ensures Pow2(4) == 16 && Pow2(7) == 128 && Pow2(8) == 256
    ensures Pow2(15) == 0x8000 && Pow2(16) == 0x1_0000 && Pow2(22) == 0x40_0000
    ensures Pow2(23) == 0x80_0000 && Pow2(24) == 0x100_0000
    ensures Pow2(31) == 0x8000_0000 && Pow2(32) == 0x1_0000_0000 && Pow2(40) == 0x100_0000_0000
    ensures Pow2(63) == 0x8000_0000_0000_0000 && Pow2(64) == 0x1_0000_0000_0000_0000
  {
    assert Pow2(7) == 128;
    Pow2Add(7, 8);
    Pow2Add(8, 8);
    Pow2Add(15, 7);
    Pow2Add(15, 8);
    Pow2Add(16, 8);
    Pow2Add(16, 15);
    Pow2Add(16, 16);
    Pow2Add(32, 8);
    Pow2Add(32, 31);
    Pow2Add(32, 32);
  }

  /** The position of the highest one bit. */
  function Log2(x: nat): (k: nat)
    requires x > 0
    ensures Pow2(k) <= x < 2 * Pow2(k)
  {
    if x == 1 then 0 else Log2(x / 2) + 1
  }

  lemma Log2Small(x: nat, n: nat)
    requires 0 < x < Pow2(n)
    ensures Log2(x) < n
  {
    if n <= Log2(x) {
      Pow2Monotone(n, Log2(x));
    }
  }

  /** The smallest k with x <= 2^k. */
  function Log2Ceil(x: nat): nat {
    if x == 0 then 0 else Log2(x) + if x == Pow2(Log2(x)) then 0 else 1
  }

  lemma Log2CeilExact(x: nat)
    requires x > 0
    ensures x <= Pow2(Log2Ceil(x))
    ensures Log2Ceil(x) > 0 ==> Pow2(Log2Ceil(x) - 1) < x
  {
  }

  // ---------- quotients ----------

  lemma SmallMultiple(d: int, m: nat)
    ensures d >= 1 ==> d * m >= m
    ensures d <= -1 ==> d * m + m <= 0
  {
    if d >= 1 {
      assert (d - 1) * m >= 0;
    } else if d <= -1 {
      assert (-d - 1) * m >= 0;
    }
  }

  lemma ModUnique(p: int, m: nat, q: int, r: int)
    requires m > 0 && p == q * m + r && 0 <= r < m
    ensures p % m == r
  {
    var q', r' := p / m, p % m;
    assert p == q' * m + r';
    assert (q - q') * m == r' - r;
    SmallMultiple(q - q', m);
  }

  lemma QuotientOf(x: nat, d: nat, q: nat, r: nat)
    requires d > 0 && x == q * d + r && r < d
    ensures x / d == q && x % d == r
  {
    var q', r' := x / d, x % d;
    assert x == q' * d + r';
    assert (q - q') * d == r' - r;
    SmallMultiple(q - q', d);
  }

  lemma Distribute(x: int, y: int, a: int)
    ensures (x + y) * a == x * a + y * a
  {
  }

  lemma Associate(s: int, b: int, a: int)
    ensures (s * b) * a == s * (a * b)
  {
  }

  lemma Regroup(s: nat, b: nat, t: nat, a: nat)
    ensures (s * b + t) * a == s * (a * b) + t * a
    ensures t < b ==> t * a + a <= a * b
    ensures t >= b ==> t * a >= a * b
  {
    Distribute(s * b, t, a);
    Associate(s, b, a);
    Associate(1, b, a);
    if t < b {
      Factored(b - t - 1, t + 1, a);
      Distribute(t, 1, a);
    } else {
      Factored(t - b, b, a);
    }
  }

  lemma Factored(d: nat, t: nat, a: nat)
    ensures t * a <= (d + t) * a
  {
    Distribute(d, t, a);
  }

  /** Dividing in two steps. */
  lemma DivDiv(x: nat, a: nat, b: nat)
    requires a > 0 && b > 0
    ensures a * b > 0 && x / (a * b) == x / a / b
  {
    var q, r := x / a, x % a;
    var s, t := q / b, q % b;
    QuotientInSteps(x, a, b, r, s, t);
  }

  lemma QuotientInSteps(x: nat, a: nat, b: nat, r: nat, s: nat, t: nat)
    requires x == (s * b + t) * a + r && r < a && t < b
    ensures a * b > 0 && x / (a * b) == s
  {
    Regroup(s, b, t, a);
    QuotientOf(x, a * b, s, t * a + r);
  }

  /** The digits of p to the base n, seen in p mod nm. */
  lemma LowDigits(p: nat, n: nat, m: nat)
    requires n > 0 && m > 0
    ensures n * m > 0 && p % (n * m) % n == p % n && p % (n * m) / n == p / n % m
  {
    Regroup(0, m, 0, n);
    var k, r := Euclid(p, n * m);
    var a, b := Euclid(r, n);
    Regroup(0, m, a, n);
    DigitsOf(p, n, m, k, a, b);
  }

  lemma Euclid(x: nat, d: nat) returns (q: nat, r: nat)
    requires d > 0
    ensures x == q * d + r && r < d && q == x / d && r == x % d
  {
    q, r := x / d, x % d;
  }

  lemma DigitsOf(p: nat, n: nat, m: nat, k: nat, a: nat, b: nat)
    requires n > 0 && m > 0 && p == k * (n * m) + (a * n + b) && b < n && a < m
    ensures p % n == b && p / n % m == a
  {
    Regroup(k, m, a, n);
    QuotientOf(p, n, k * m + a, b);
    QuotientOf(p / n, m, k, a);
  }
}
