/** Powers of two and the arithmetic facts the word-level models share. */
module Powers {

  function Pow2(n: nat): (p: nat)
    ensures p >= 1
  {
    if n == 0 then 1 else 2 * Pow2(n - 1)
  }

  /** Number of bits needed to write n, 0 for 0 (std::bit_width). */
  function BitWidth(n: nat): nat {
    if n == 0 then 0 else 1 + BitWidth(n / 2)
  }

  lemma {:induction false} BitWidthBounds(n: nat)
    requires n > 0
    ensures BitWidth(n) >= 1
    ensures Pow2(BitWidth(n) - 1) <= n < Pow2(BitWidth(n))
  {
    if n > 1 {
      BitWidthBounds(n / 2);
    } else {
      assert BitWidth(1) == 1 + BitWidth(0);
    }
  }

  lemma {:induction false} Pow2Monotone(a: nat, b: nat)
    requires a <= b
    ensures Pow2(a) <= Pow2(b)
  {
    if a < b {
      Pow2Monotone(a, b - 1);
    }
  }

  lemma Pow2Reflects(a: nat, b: nat)
    requires Pow2(a) < Pow2(b)
    ensures a < b
  {
    if b <= a {
      Pow2Monotone(b, a);
    }
  }

  lemma {:induction false} Pow2Sum(a: nat, b: nat)
    ensures Pow2(a + b) == Pow2(a) * Pow2(b)
  {
    if b > 0 {
      Pow2Sum(a, b - 1);
      assert a + b - 1 == a + (b - 1);
    }
  }

  /** Division with remainder determines both parts. */
  lemma DivModUnique(x: int, d: int, q: int, r: int)
    requires d > 0 && 0 <= r < d && x == q * d + r
    ensures x / d == q && x % d == r
  {
    var q', r' := x / d, x % d;
    assert x == q' * d + r';
    assert (q - q') * d == r' - r;
    if q > q' {
      assert (q - q') * d >= d by { MulAtLeast(q - q', d); }
    } else if q < q' {
      assert (q' - q) * d >= d by { MulAtLeast(q' - q, d); }
    }
  }

  lemma MulAtLeast(k: int, d: int)
    requires k >= 1 && d >= 0
    ensures k * d >= d
  {
  }

  /** Adding a multiple of the modulus changes no remainder. */
  lemma ModShift(x: int, k: int, m: int)
    requires m > 0
    ensures (x + k * m) % m == x % m
  {
    DivModUnique(x + k * m, m, x / m + k, x % m);
  }

  lemma AddMod(a: int, b: int, m: nat)
    requires m > 0
    ensures (a + b % m) % m == (a + b) % m
  {
    ModShift(a + b % m, b / m, m);
    assert a + b % m + b / m * m == a + b;
  }

  lemma AddResidues(x: int, s: int, y: int, c: int, m: nat)
    requires m > 0 && x == s % m && y == c % m
    ensures (x + y) % m == (s + c) % m
  {
    ModShift(x + y, s / m + c / m, m);
    assert x + y + (s / m + c / m) * m == s + c by {
      assert (s / m + c / m) * m == s / m * m + c / m * m;
    }
  }

  lemma MulMonotone(p: int, q: int, b: nat)
    ensures p <= q ==> p * b <= q * b
  {
    if p <= q {
      assert (q - p) * b == q * b - p * b;
    }
  }

  lemma Pow2Of1()
    ensures Pow2(1) == 2
  {
    assert Pow2(1) == 2 * Pow2(0);
  }
}
