/** Integers of twice the width built from two halves, and the operations on them in terms
    of half-width operations.  Everything is parametric in the width. */
module WideInt {
  import opened Powers

  // ----- the operations a machine word of n bits offers -----

  predicate Fits(x: int, n: nat) { 0 <= x < Pow2(n) }

  function Add(a: nat, b: nat, n: nat): nat { (a + b) % Pow2(n) }

  function Sub(a: nat, b: nat, n: nat): nat { (a - b) % Pow2(n) }

  function Mul(a: nat, b: nat, n: nat): nat { a * b % Pow2(n) }

  function Not(a: nat, n: nat): nat
    requires Fits(a, n)
  {
    Pow2(n) - 1 - a
  }

  function ShiftLeft(a: nat, count: nat, n: nat): nat { a * Pow2(count) % Pow2(n) }

  function ShiftRight(a: nat, count: nat): nat {
    hide Pow2;
    a / Pow2(count)
  }

  function Or(a: nat, b: nat): nat
    decreases a + b
  {
    if a == 0 && b == 0 then 0
    else 2 * Or(a / 2, b / 2) + if a % 2 == 1 || b % 2 == 1 then 1 else 0
  }

  /** The two's-complement reading of an n-bit word, and the word of a value. */
  function Signed(a: nat, n: nat): int { if 2 * a < Pow2(n) then a else a - Pow2(n) }

  function WordOf(x: int, n: nat): (w: nat)
    ensures Fits(w, n)
  {
    x % Pow2(n)
  }

  function Compare(a: int, b: int): int { if a == b then 0 else if a < b then -1 else 1 }

  // ----- two halves of h bits -----

  datatype Split = Split(high: nat, low: nat)

  function SplitOf(v: nat, h: nat): Split {
    hide Pow2;
    Split(v / Pow2(h), v % Pow2(h))
  }

  function Whole(s: Split, h: nat): nat { s.high * Pow2(h) + s.low }

  lemma SplitRoundTrip(v: nat, h: nat)
    requires Fits(v, 2 * h)
    ensures Whole(SplitOf(v, h), h) == v
    ensures Fits(SplitOf(v, h).high, h) && Fits(SplitOf(v, h).low, h)
  {
    hide Pow2;
    Square(h);
    QuotientBelow(v, Pow2(h), Pow2(h));
    assert v == v / Pow2(h) * Pow2(h) + v % Pow2(h);
  }

  lemma WholeRoundTrip(s: Split, h: nat)
    requires Fits(s.high, h) && Fits(s.low, h)
    ensures Fits(Whole(s, h), 2 * h) && SplitOf(Whole(s, h), h) == s
  {
    Square(h);
    DivModUnique(Whole(s, h), Pow2(h), s.high, s.low);
    HalvesBelow(s.high, s.low, Pow2(h), Pow2(h));
  }

  lemma Square(h: nat)
    ensures Pow2(2 * h) == Pow2(h) * Pow2(h)
  {
    hide Pow2;
    Pow2Sum(h, h);
    assert h + h == 2 * h;
  }

  lemma QuotientBelow(v: nat, b: nat, c: nat)
    requires b > 0 && v < c * b
    ensures v / b < c
  {
    var q := v / b;
    assert q * b <= v;
    MulMonotone(c, q, b);
  }

  lemma HalvesBelow(high: nat, low: nat, b: nat, c: nat)
    requires high < c && low < b
    ensures high * b + low < c * b
  {
    MulAtLeast(c - high, b);
    assert (c - high) * b == c * b - high * b;
  }

  /** A multiple of 2^c and a value below 2^c have no bit in common. */
  lemma {:induction false} OrIsSum(k: nat, b: nat, c: nat)
    requires b < Pow2(c)
    ensures Or(k * Pow2(c), b) == k * Pow2(c) + b
    decreases c
  {
    if c > 0 {
      OrIsSum(k, b / 2, c - 1);
      Doubled(k, Pow2(c - 1));
    } else {
      OrZero(k);
    }
  }

  lemma Doubled(k: nat, p: nat)
    ensures k * (2 * p) == 2 * (k * p)
  {
  }

  lemma {:induction false} OrZero(a: nat)
    ensures Or(a, 0) == a
  {
    if a > 0 {
      OrZero(a / 2);
    }
  }

  // ----- add, negate, subtract -----

  /** Carrying into the high half once when the low halves overflow adds modulo the square
      of the base. */
  lemma CarryIsExact(a: Split, b: Split, carry: nat, base: nat)
    requires base > 0 && a.low < base && b.low < base
    requires carry == if a.low + b.low >= base then 1 else 0
    ensures (a.high + b.high + carry) % base * base + (a.low + b.low) % base
         == ((a.high * base + a.low) + (b.high * base + b.low)) % (base * base)
  {
    var low := (a.low + b.low) % base;
    DivModUnique(a.low + b.low, base, carry, a.low + b.low - carry * base);
    assert a.low + b.low == carry * base + low;
    var s := a.high + b.high + carry;
    SumOfHalves(a, b, s, carry, low, base);
    LowDigits(s, low, base);
  }

  lemma LowDigits(s: int, low: nat, base: nat)
    requires low < base
    ensures (s * base + low) % (base * base) == s % base * base + low
  {
    var k, high := s / base, s % base;
    HalvesBelow(high, low, base, base);
    DivModUnique(s * base + low, base * base, k, high * base + low);
  }

  lemma SumOfHalves(a: Split, b: Split, s: nat, carry: nat, low: nat, base: nat)
    requires s == a.high + b.high + carry && a.low + b.low == carry * base + low
    ensures (a.high * base + a.low) + (b.high * base + b.low) == s * base + low
  {
  }

  lemma LowOverflow(a: nat, b: nat, m: nat)
    requires a < m && b < m
    ensures a > (a + b) % m <==> a + b >= m
  {
    DivModUnique(a + b, m, if a + b >= m then 1 else 0, if a + b >= m then a + b - m else a + b);
  }

  method AddSplit(a: nat, b: nat, h: nat) returns (r: nat)
    requires Fits(a, 2 * h) && Fits(b, 2 * h)
    ensures r == Add(a, b, 2 * h)
  {
    hide Pow2;
    SplitRoundTrip(a, h);
    SplitRoundTrip(b, h);
    var one, two := SplitOf(a, h), SplitOf(b, h);
    var result := Split(0, 0);
    result := result.(low := Add(one.low, two.low, h));
    result := result.(high := Add(one.high, two.high, h));
    if one.low > result.low {
      result := result.(high := Add(result.high, 1, h));
    }
    r := Whole(result, h);
    LowOverflow(one.low, two.low, Pow2(h));
    AddMod(1, one.high + two.high, Pow2(h));
    CarryIsExact(one, two, if one.low + two.low >= Pow2(h) then 1 else 0, Pow2(h));
    Square(h);
  }

  method Negate(t: nat, h: nat) returns (r: nat)
    requires h > 0 && Fits(t, 2 * h)
    ensures r == Sub(0, t, 2 * h)
  {
    hide Pow2;
    ComplementIsMirror(t, h);
    var s := SplitOf(t, h);
    s := s.(low := Not(s.low, h));
    s := s.(high := Not(s.high, h));
    var one := Whole(Split(0, 1), h);
    assert one == 1;
    OneFits(h);
    r := AddSplit(Whole(s, h), one, h);
    ModShift(0 - t, 1, Pow2(2 * h));
    assert Pow2(2 * h) - 1 - t + 1 == 0 - t + 1 * Pow2(2 * h);
  }

  lemma OneFits(h: nat)
    requires h > 0
    ensures Fits(1, 2 * h)
  {
    Pow2Monotone(1, 2 * h);
    assert Pow2(1) == 2 * Pow2(0);
  }

  lemma ComplementIsMirror(t: nat, h: nat)
    requires Fits(t, 2 * h)
    ensures var s := SplitOf(t, h);
      Fits(s.high, h) && Fits(s.low, h) && Whole(Split(Not(s.high, h), Not(s.low, h)), h) == Pow2(2 * h) - 1 - t
  {
    hide Pow2;
    SplitRoundTrip(t, h);
    Square(h);
    var s, base := SplitOf(t, h), Pow2(h);
    assert (base - 1 - s.high) * base == base * base - base - s.high * base;
  }

  method SubNeg(a: nat, b: nat, h: nat) returns (r: nat)
    requires h > 0 && Fits(a, 2 * h) && Fits(b, 2 * h)
    ensures r == Sub(a, b, 2 * h)
  {
    var m := Negate(b, h);
    r := AddSplit(a, m, h);
    AddMod(a, 0 - b, Pow2(2 * h));
  }

  // ----- compare -----

  /** How two values compare, from how their halves do; signed compares the high halves as
      signed. */
  function CompareSplit(a: nat, b: nat, h: nat, signed: bool): int {
    var one, two := SplitOf(a, h), SplitOf(b, h);
    var high := if signed then Compare(Signed(one.high, h), Signed(two.high, h)) else Compare(one.high, two.high);
    if high != 0 then high else Compare(one.low, two.low)
  }

  lemma HighDecides(p: int, u: int, q: int, v: int, base: nat)
    requires 0 <= u < base && 0 <= v < base
    ensures p < q ==> p * base + u < q * base + v
    ensures p == q ==> (p * base + u < q * base + v <==> u < v)
  {
    if p < q {
      MulAtLeast(q - p, base);
      assert (q - p) * base == q * base - p * base;
    }
  }

  /** The sign of a two-half value is the sign of its high half. */
  lemma SignedWhole(v: nat, h: nat)
    requires h > 0 && Fits(v, 2 * h)
    ensures var s := SplitOf(v, h); Signed(v, 2 * h) == Signed(s.high, h) * Pow2(h) + s.low
  {
    assert Pow2(h) == 2 * Pow2(h - 1);
    SignFromHigh(v, h, Pow2(h - 1));
  }

  lemma SignFromHigh(v: nat, h: nat, half: nat)
    requires Fits(v, 2 * h) && Pow2(h) == 2 * half
    ensures var s := SplitOf(v, h); Signed(v, 2 * h) == Signed(s.high, h) * Pow2(h) + s.low
  {
    hide Pow2;
    SplitRoundTrip(v, h);
    Square(h);
    var s, base := SplitOf(v, h), Pow2(h);
    HighDecides(s.high, s.low, half, 0, base);
    HighDecides(half, 0, s.high, s.low, base);
    WholeTurn(s.high, half, base);
  }

  lemma WholeTurn(high: int, half: int, base: int)
    requires base == 2 * half
    ensures 2 * (half * base) == base * base
    ensures (high - base) * base == high * base - base * base
  {
  }

  lemma CompareSplitIsCompare(a: nat, b: nat, h: nat)
    requires h > 0 && Fits(a, 2 * h) && Fits(b, 2 * h)
    ensures CompareSplit(a, b, h, false) == Compare(a, b)
    ensures CompareSplit(a, b, h, true) == Compare(Signed(a, 2 * h), Signed(b, 2 * h))
  {
    hide Pow2;
    SplitRoundTrip(a, h);
    SplitRoundTrip(b, h);
    SignedWhole(a, h);
    SignedWhole(b, h);
    var one, two, base := SplitOf(a, h), SplitOf(b, h), Pow2(h);
    HighDecides(one.high, one.low, two.high, two.low, base);
    HighDecides(two.high, two.low, one.high, one.low, base);
    HighDecides(Signed(one.high, h), one.low, Signed(two.high, h), two.low, base);
    HighDecides(Signed(two.high, h), two.low, Signed(one.high, h), one.low, base);
  }

  // ----- shift -----

  lemma {:induction false} OrCommutes(a: nat, b: nat)
    ensures Or(a, b) == Or(b, a)
    decreases a + b
  {
    if a != 0 || b != 0 {
      OrCommutes(a / 2, b / 2);
    }
  }

  /** Scaling by p when the base is p * w: the high part of x comes off at the top. */
  lemma Scale(x: int, p: nat, w: nat)
    requires p > 0 && w > 0
    ensures x * p == x / w * (p * w) + x % w * p
    ensures x * p % (p * w) == x % w * p
    ensures x % w * p + p <= p * w
  {
    var u, v := x / w, x % w;
    assert x * p == (u * w + v) * p == u * (p * w) + v * p;
    HalvesBelow(v, p - 1, p, w);
    DivModUnique(x * p, p * w, u, v * p);
  }

  /** The digits of a two-half value times p. */
  lemma ScaleHalves(high: nat, low: nat, p: nat, w: nat, base: nat)
    requires p > 0 && w > 0 && base == p * w && low < base
    ensures low / w < p
    ensures high * p % base == high % w * p && low * p % base == low % w * p
    ensures (high * base + low) * p % (base * base) == (high % w * p + low / w) * base + low % w * p
  {
    Scale(high, p, w);
    Scale(low, p, w);
    QuotientBelow(low, w, p);
    var s := high * p + low / w;
    assert (high * base + low) * p == s * base + low % w * p by {
      ScaleTerms(high, low, low / w, low % w * p, p, base);
    }
    DivModUnique(s, base, high / w, high % w * p + low / w);
    LowDigits(s, low % w * p, base);
  }

  lemma ScaleTerms(high: int, low: int, u: int, v: int, p: int, base: int)
    requires low * p == u * base + v
    ensures (high * base + low) * p == (high * p + u) * base + v
  {
    assert (high * base) * p == (high * p) * base;
  }

  method ShiftLeftSplit(t: nat, count: nat, h: nat) returns (r: nat)
    requires Fits(t, 2 * h) && 0 < count < 2 * h
    ensures r == ShiftLeft(t, count, 2 * h)
  {
    hide Pow2, Or;
    SplitRoundTrip(t, h);
    var s := SplitOf(t, h);
    if count < h {
      LeftWithinHalves(s, count, h);
      s := s.(high := Or(ShiftLeft(s.high, count, h), ShiftRight(s.low, h - count)));
      s := s.(low := ShiftLeft(s.low, count, h));
    } else {
      LeftAcrossHalves(s, count, h);
      s := s.(high := ShiftLeft(s.low, count - h, h));
      s := s.(low := 0);
    }
    r := Whole(s, h);
  }

  lemma LeftWithinHalves(s: Split, count: nat, h: nat)
    requires count < h && Fits(s.high, h) && Fits(s.low, h)
    ensures Whole(Split(Or(ShiftLeft(s.high, count, h), ShiftRight(s.low, h - count)), ShiftLeft(s.low, count, h)), h)
         == ShiftLeft(Whole(s, h), count, 2 * h)
  {
    hide Pow2, Or;
    var p, w, base := Pow2(count), Pow2(h - count), Pow2(h);
    Pow2Sum(count, h - count);
    assert count + (h - count) == h;
    Square(h);
    ScaleHalves(s.high, s.low, p, w, base);
    OrIsSum(s.high % w, s.low / w, count);
  }

  lemma LeftAcrossHalves(s: Split, count: nat, h: nat)
    requires h <= count && Fits(s.high, h) && Fits(s.low, h)
    ensures Whole(Split(ShiftLeft(s.low, count - h, h), 0), h) == ShiftLeft(Whole(s, h), count, 2 * h)
  {
    hide Pow2;
    var p, base := Pow2(count - h), Pow2(h);
    Pow2Sum(count - h, h);
    assert count - h + h == count;
    Square(h);
    var x := s.low * p + s.high * p * base;
    assert (s.high * base + s.low) * (p * base) == x * base + 0 by {
      assert (s.high * base) * (p * base) == (s.high * p * base) * base;
      assert s.low * (p * base) == (s.low * p) * base;
    }
    LowDigits(x, 0, base);
    ModShift(s.low * p, s.high * p, base);
  }

  /** The digits of a two-half value divided by p, for a high half of either sign. */
  lemma UnscaleHalves(high: int, low: nat, p: nat, w: nat, base: nat)
    requires p > 0 && w > 0 && base == p * w && low < base
    ensures low / p < w
    ensures high * w % base == high % p * w && high % p * w + low / p < base
    ensures (high * base + low) / p == high / p * base + (high % p * w + low / p)
  {
    assert base == w * p;
    Scale(high, w, p);
    QuotientBelow(low, p, w);
    var u, v := high / p, high % p;
    UnscaledTerms(high, low, u, v, low / p, low % p, p, w, base);
    DivModUnique(high * base + low, p, u * base + v * w + low / p, low % p);
  }

  lemma UnscaledTerms(high: int, low: int, u: int, v: int, x: int, y: int, p: int, w: int, base: int)
    requires high == u * p + v && low == x * p + y && base == w * p
    ensures high * base + low == (u * base + v * w + x) * p + y
  {
    assert high * base == u * p * base + v * base;
    assert v * base == v * w * p && u * p * base == u * base * p;
  }

  method ShiftRightSplit(t: nat, count: nat, h: nat) returns (r: nat)
    requires Fits(t, 2 * h) && 0 < count < 2 * h
    ensures r == ShiftRight(t, count)
  {
    hide Pow2, Or;
    SplitRoundTrip(t, h);
    var s := SplitOf(t, h);
    if count < h {
      RightWithinHalves(s, s.high, count, h);
      s := s.(low := Or(ShiftRight(s.low, count), ShiftLeft(s.high, h - count, h)));
      s := s.(high := ShiftRight(s.high, count));
    } else {
      RightAcrossHalves(s.high, s.low, count, h);
      s := s.(low := ShiftRight(s.high, count - h));
      s := s.(high := 0);
    }
    r := Whole(s, h);
  }

  /** high is the value of the high half, read as unsigned or as signed. */
  lemma RightWithinHalves(s: Split, high: int, count: nat, h: nat)
    requires count < h && Fits(s.high, h) && Fits(s.low, h)
    requires high == s.high || high == s.high - Pow2(h)
    ensures var low := Or(ShiftRight(s.low, count), ShiftLeft(s.high, h - count, h));
      && Fits(low, h)
      && (high * Pow2(h) + s.low) / Pow2(count) == high / Pow2(count) * Pow2(h) + low
  {
    hide Pow2, Or;
    var p, w, base := Pow2(count), Pow2(h - count), Pow2(h);
    Pow2Sum(count, h - count);
    assert count + (h - count) == h;
    UnscaleHalves(high, s.low, p, w, base);
    SameLowDigits(s.high, high, w, base);
    OrCommutes(s.low / p, high % p * w);
    OrIsSum(high % p, s.low / p, h - count);
  }

  lemma SameLowDigits(word: int, high: int, w: nat, base: nat)
    requires base > 0 && (high == word || high == word - base)
    ensures word * w % base == high * w % base
  {
    if high != word {
      assert word * w == high * w + w * base;
      ModShift(high * w, w, base);
    }
  }

  lemma RightAcrossHalves(high: int, low: nat, count: nat, h: nat)
    requires h <= count && Fits(low, h)
    ensures (high * Pow2(h) + low) / Pow2(count) == high / Pow2(count - h)
  {
    hide Pow2;
    var p, base := Pow2(count - h), Pow2(h);
    Pow2Sum(count - h, h);
    assert count - h + h == count;
    var q, r := high / p, high % p;
    assert high * base == q * (p * base) + r * base by {
      assert (q * p + r) * base == q * (p * base) + r * base;
    }
    HalvesBelow(r, low, base, p);
    DivModUnique(high * base + low, p * base, q, r * base + low);
  }

  method ShiftRightArithmeticSplit(t: nat, count: nat, h: nat) returns (r: nat)
    requires Fits(t, 2 * h) && 0 < count < 2 * h
    ensures r == WordOf(Signed(t, 2 * h) / Pow2(count), 2 * h)
  {
    hide Pow2, Or;
    SplitRoundTrip(t, h);
    SignedWhole(t, h);
    var s := SplitOf(t, h);
    var high := Signed(s.high, h);
    if count < h {
      RightWithinHalves(s, high, count, h);
      WordOfHalves(high / Pow2(count), Or(ShiftRight(s.low, count), ShiftLeft(s.high, h - count, h)), h);
      s := s.(low := Or(ShiftRight(s.low, count), ShiftLeft(s.high, h - count, h)));
      s := s.(high := WordOf(high / Pow2(count), h));
    } else {
      RightAcrossHalves(high, s.low, count, h);
      SignExtends(s.high, Pow2(count - h), h);
      s := s.(low := WordOf(high / Pow2(count - h), h));
      s := s.(high := WordOf(high / Pow2(h - 1), h));
    }
    r := Whole(s, h);
  }

  lemma WordOfHalves(high: int, low: nat, h: nat)
    requires Fits(low, h)
    ensures WordOf(high * Pow2(h) + low, 2 * h) == Whole(Split(WordOf(high, h), low), h)
  {
    hide Pow2;
    Square(h);
    LowDigits(high, low, Pow2(h));
  }

  lemma SignExtends(word: nat, p: nat, h: nat)
    requires h > 0 && p > 0 && Fits(word, h)
    ensures var x := Signed(word, h);
      WordOf(x / p, 2 * h) == Whole(Split(WordOf(x / Pow2(h - 1), h), WordOf(x / p, h)), h)
  {
    var x, half := Signed(word, h), Pow2(h - 1);
    assert Pow2(h) == 2 * half;
    var y := x / p;
    QuotientBetween(x, p, half);
    if x >= 0 {
      DivModUnique(x, half, 0, x);
      DivModUnique(y, Pow2(h), 0, y);
      WordOfHalves(0, y, h);
    } else {
      DivModUnique(x, half, -1, x + half);
      DivModUnique(y, Pow2(h), -1, y + Pow2(h));
      WordOfHalves(-1, y + Pow2(h), h);
    }
  }

  lemma QuotientBetween(x: int, p: nat, half: int)
    requires p > 0 && -half <= x < half
    ensures 0 <= x ==> 0 <= x / p < half
    ensures x < 0 ==> -half <= x / p < 0
  {
    var y := x / p;
    assert y * p <= x < y * p + p;
    if 0 <= x {
      assert y >= 0 by { MulMonotone(y + 1, 0, p); }
      MulAtLeast(p, y);
    } else {
      assert y < 0 by { MulMonotone(0, y, p); }
      MulAtLeast(p, -(y + 1));
    }
  }

  method ShiftLeftAdd(t: nat, count: nat, n: nat) returns (r: nat)
    requires Fits(t, n)
    ensures r == ShiftLeft(t, count, n)
  {
    if count >= n {
      ShiftedOut(t, count, n);
      return 0;
    }
    r := t;
    DivModUnique(t, Pow2(n), 0, t);
    for i := 0 to count
      invariant r == ShiftLeft(t, i, n)
    {
      DoubleShift(t, i, n);
      r := Add(r, r, n);
    }
  }

  lemma DoubleShift(t: nat, i: nat, n: nat)
    ensures Add(ShiftLeft(t, i, n), ShiftLeft(t, i, n), n) == ShiftLeft(t, i + 1, n)
  {
    var x := t * Pow2(i);
    AddResidues(x % Pow2(n), x, x % Pow2(n), x, Pow2(n));
    assert 2 * (t * Pow2(i)) == t * (2 * Pow2(i));
  }

  lemma ShiftedOut(t: nat, count: nat, n: nat)
    requires count >= n
    ensures ShiftLeft(t, count, n) == 0
  {
    hide Pow2;
    Pow2Sum(count - n, n);
    assert count - n + n == count;
    assert t * (Pow2(count - n) * Pow2(n)) == (t * Pow2(count - n)) * Pow2(n) + 0;
    DivModUnique(t * Pow2(count), Pow2(n), t * Pow2(count - n), 0);
  }
}
