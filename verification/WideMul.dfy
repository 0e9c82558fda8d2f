/** Multiplication of wide integers out of half-width products, and by shift and add. */
module WideMul {
  import opened Powers
  import opened WideInt

  // ----- out of half-width products -----

  /** The product of two 2h-bit values modulo 2^(2h); the product of the two high halves is
      not formed. */
  function MulSplit(a: nat, b: nat, h: nat): nat {
    var one, two := SplitOf(a, h), SplitOf(b, h);
    var lls := one.low * two.low;
    var lhs := Mul(one.low, two.high, h);
    var hls := Mul(one.high, two.low, h);
    Add(Add(lls, ShiftLeft(lhs, h, 2 * h), 2 * h), ShiftLeft(hls, h, 2 * h), 2 * h)
  }

  /** The full product of two 2h-bit values, in 4h bits. */
  function MulxSplit(a: nat, b: nat, h: nat): nat {
    var one, two := SplitOf(a, h), SplitOf(b, h);
    var lls := one.low * two.low;
    var lhs := one.low * two.high;
    var hls := one.high * two.low;
    var hhs := one.high * two.high;
    Add(Add(Add(lls, ShiftLeft(lhs, h, 4 * h), 4 * h), ShiftLeft(hls, h, 4 * h), 4 * h),
        ShiftLeft(hhs, 2 * h, 4 * h), 4 * h)
  }

  lemma AddAdd(a: nat, b: nat, c: nat, m: nat)
    requires m > 0
    ensures ((a + b % m) % m + c % m) % m == (a + b + c) % m
  {
    AddMod(a, b, m);
    AddResidues((a + b % m) % m, a + b, c % m, c, m);
  }

  lemma ProductOfHalves(p: nat, q: nat, u: nat, v: nat, base: nat)
    ensures (p * base + q) * (u * base + v) == q * v + q * u * base + p * v * base + p * u * (base * base)
  {
    assert (p * base) * (u * base) == p * u * (base * base);
    assert (p * base) * v == p * v * base;
    assert q * (u * base) == q * u * base;
  }

  lemma MulSplitIsMul(a: nat, b: nat, h: nat)
    requires Fits(a, 2 * h) && Fits(b, 2 * h)
    ensures MulSplit(a, b, h) == Mul(a, b, 2 * h)
  {
    hide Pow2;
    SplitRoundTrip(a, h);
    SplitRoundTrip(b, h);
    Square(h);
    var one, two, base := SplitOf(a, h), SplitOf(b, h), Pow2(h);
    var lh, hl := one.low * two.high, one.high * two.low;
    AddAdd(one.low * two.low, lh % base * base, hl % base * base, base * base);
    ProductOfHalves(one.high, one.low, two.high, two.low, base);
    DropTop(one.low * two.low, lh, hl, one.high * two.high, base);
  }

  /** What lies above the two digits does not matter. */
  lemma DropTop(ll: nat, lh: nat, hl: nat, hh: nat, base: nat)
    requires base > 0
    ensures (ll + lh % base * base + hl % base * base) % (base * base)
         == (ll + lh * base + hl * base + hh * (base * base)) % (base * base)
  {
    var i, j := lh / base, hl / base;
    var x := ll + lh % base * base + hl % base * base;
    assert ll + lh * base + hl * base + hh * (base * base) == x + (i + j + hh) * (base * base);
    ModShift(x, i + j + hh, base * base);
  }

  lemma MulxSplitIsExact(a: nat, b: nat, h: nat)
    requires Fits(a, 2 * h) && Fits(b, 2 * h)
    ensures MulxSplit(a, b, h) == a * b && Fits(a * b, 4 * h)
  {
    hide Pow2;
    SplitRoundTrip(a, h);
    SplitRoundTrip(b, h);
    Square(h);
    var one, two, base := SplitOf(a, h), SplitOf(b, h), Pow2(h);
    ProductFits(a, b, 2 * h);
    assert 2 * (2 * h) == 4 * h;
    MulxSum(one, two, base, Pow2(4 * h));
  }

  lemma MulxSum(one: Split, two: Split, base: nat, m: nat)
    requires (one.high * base + one.low) * (two.high * base + two.low) < m
    ensures (((one.low * two.low + one.low * two.high * base % m) % m + one.high * two.low * base % m) % m
             + one.high * two.high * (base * base) % m) % m
         == (one.high * base + one.low) * (two.high * base + two.low)
  {
    ProductOfHalves(one.high, one.low, two.high, two.low, base);
    ExactSum(one.low * two.low, one.low * two.high * base, one.high * two.low * base,
             one.high * two.high * (base * base), m);
  }

  lemma ProductFits(a: nat, b: nat, n: nat)
    requires Fits(a, n) && Fits(b, n)
    ensures Fits(a * b, 2 * n)
  {
    hide Pow2;
    Square(n);
    var m := Pow2(n);
    MulMonotone(a, m - 1, b);
    MulMonotone(b, m, m - 1);
    assert a * b <= (m - 1) * b && (m - 1) * b == b * (m - 1);
    assert m * (m - 1) == m * m - m;
  }

  /** A sum that stays below the modulus is not reduced on the way. */
  lemma ExactSum(w: nat, x: nat, y: nat, z: nat, m: nat)
    requires w + x + y + z < m
    ensures (((w + x % m) % m + y % m) % m + z % m) % m == w + x + y + z
  {
    Unreduced(x, m);
    Unreduced(y, m);
    Unreduced(z, m);
    Unreduced(w + x, m);
    Unreduced(w + x + y, m);
    Unreduced(w + x + y + z, m);
  }

  lemma Unreduced(x: nat, m: nat)
    requires x < m
    ensures x % m == x
  {
  }

  // ----- by shift and add -----

  /** One step of shift and add keeps the total, modulo m. */
  lemma AddStep(result: nat, a: nat, b: nat, m: nat)
    requires m > 0
    ensures var next := if a % 2 == 1 then (result + b) % m else result % m;
      (next + a / 2 * (b * 2 % m)) % m == (result + a * b) % m
  {
    var next := if a % 2 == 1 then result + b else result;
    MulMod(a / 2, b * 2, m);
    AddMod(next, a / 2 * (b * 2 % m), m);
    AddMod(next, a / 2 * (b * 2), m);
    assert next + a / 2 * (b * 2) == result + a * b by {
      assert a == 2 * (a / 2) + a % 2;
      assert (2 * (a / 2)) * b == a / 2 * (b * 2);
    }
    AddMod(a / 2 * (b * 2 % m), next, m);
  }

  lemma MulMod(a: nat, b: nat, m: nat)
    requires m > 0
    ensures a * (b % m) % m == a * b % m
  {
    var j := b / m;
    assert a * (b % m) + a * j * m == a * b by {
      assert b == b % m + j * m;
      assert a * (j * m) == a * j * m;
    }
    ModShift(a * (b % m), a * j, m);
  }

  method MulAdd(a: nat, b: nat, n: nat) returns (result: nat)
    requires Fits(a, n) && Fits(b, n)
    ensures result == Mul(a, b, n)
  {
    hide Pow2;
    result := 0;
    var x, y := a, b;
    for i := 0 to n
      invariant Fits(result, n) && Fits(y, n) && Fits(x, n - i)
      invariant (result + x * y) % Pow2(n) == a * b % Pow2(n)
    {
      AddStep(result, x, y, Pow2(n));
      DivModUnique(result, Pow2(n), 0, result);
      HalfFits(x, n - i);
      Pow2Of1();
      if x % 2 == 1 {
        result := Add(result, y, n);
      }
      x := ShiftRight(x, 1);
      y := ShiftLeft(y, 1, n);
    }
    NothingLeft(x);
    DivModUnique(result, Pow2(n), 0, result);
  }

  method MulxAdd(a: nat, b: nat, n: nat) returns (result: nat)
    requires Fits(a, n) && Fits(b, n)
    ensures result == a * b && Fits(result, 2 * n)
  {
    hide Pow2;
    result := 0;
    ProductFits(a, b, n);
    WiderFits(b, n, 2 * n);
    var x, y := a, b;
    for i := 0 to n
      invariant Fits(result, 2 * n) && Fits(y, 2 * n) && Fits(x, n - i)
      invariant (result + x * y) % Pow2(2 * n) == a * b % Pow2(2 * n)
    {
      AddStep(result, x, y, Pow2(2 * n));
      DivModUnique(result, Pow2(2 * n), 0, result);
      HalfFits(x, n - i);
      Pow2Of1();
      if x % 2 == 1 {
        result := Add(result, y, 2 * n);
      }
      x := ShiftRight(x, 1);
      y := ShiftLeft(y, 1, 2 * n);
    }
    NothingLeft(x);
    DivModUnique(result, Pow2(2 * n), 0, result);
    DivModUnique(a * b, Pow2(2 * n), 0, a * b);
  }

  lemma HalfFits(x: nat, n: nat)
    requires n > 0 && Fits(x, n)
    ensures Fits(x / 2, n - 1)
  {
  }

  lemma NothingLeft(x: nat)
    requires Fits(x, 0)
    ensures x == 0
  {
  }

  lemma WiderFits(x: nat, n: nat, m: nat)
    requires Fits(x, n) && n <= m
    ensures Fits(x, m)
  {
    Pow2Monotone(n, m);
  }

  /** The truncating product is the low half of the full one. */
  lemma TruncatedIsLowHalf(a: nat, b: nat, h: nat)
    requires Fits(a, 2 * h) && Fits(b, 2 * h)
    ensures MulSplit(a, b, h) == MulxSplit(a, b, h) % Pow2(2 * h)
  {
    MulSplitIsMul(a, b, h);
    MulxSplitIsExact(a, b, h);
  }
}
