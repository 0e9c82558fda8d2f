/** Non-restoring division: a double-width partial remainder, one quotient digit of -1 or 1
    a step, converted and corrected at the end.  Words are n bits, n >= 1. */
module Division {
  import opened Powers
  import opened WideInt

  datatype Quotient = Quotient(q: nat, r: nat)

  /** The loop with i digits to go: r is the partial remainder as a 2n-bit word, d the
      divisor in the upper half of one. */
  function Digits(q: nat, r: nat, d: nat, i: nat, n: nat): Quotient
    decreases i
  {
    if i == 0 then Quotient(q, r)
    else if Signed(r, 2 * n) >= 0 then
      Digits(Or(q, Pow2(i - 1)), Sub(ShiftLeft(r, 1, 2 * n), d, 2 * n), d, i - 1, n)
    else
      Digits(Or(q, 0), Add(ShiftLeft(r, 1, 2 * n), d, 2 * n), d, i - 1, n)
  }

  /** From digits -1 and 1 to bits, and one step back if the remainder came out negative. */
  function Correct(x: Quotient, d: nat, n: nat): Quotient
    requires Fits(x.q, n)
  {
    var q := Sub(x.q, Not(x.q, n), n);
    if Signed(x.r, 2 * n) < 0 then Quotient(Sub(q, 1, n), ShiftRight(Add(x.r, d, 2 * n), n))
    else Quotient(q, ShiftRight(x.r, n))
  }

  function Divide(num: nat, denom: nat, n: nat): Quotient
    requires n >= 1 && Fits(num, n) && Fits(denom, n)
  {
    var d := ShiftLeft(denom, n, 2 * n);
    DigitsFit(0, num, d, n, n);
    Correct(Digits(0, num, d, n, n), d, n)
  }

  /** The digits produced below place i leave those above alone. */
  lemma {:induction false} DigitsFit(q: nat, r: nat, d: nat, i: nat, n: nat)
    requires i <= n && Fits(q, n) && q % Pow2(i) == 0
    ensures q <= Digits(q, r, d, i, n).q < q + Pow2(i) <= Pow2(n)
    decreases i
  {
    PlaceFits(q, i, n);
    if i > 0 {
      SetDigit(q, i);
      if Signed(r, 2 * n) >= 0 {
        DigitsFit(q + Pow2(i - 1), Sub(ShiftLeft(r, 1, 2 * n), d, 2 * n), d, i - 1, n);
      } else {
        DigitsFit(q, Add(ShiftLeft(r, 1, 2 * n), d, 2 * n), d, i - 1, n);
      }
    }
  }

  lemma PlaceFits(q: nat, i: nat, n: nat)
    requires i <= n && Fits(q, n) && q % Pow2(i) == 0
    ensures q + Pow2(i) <= Pow2(n)
  {
    hide Pow2;
    Pow2Sum(n - i, i);
    assert n - i + i == n;
    NextMultiple(q, Pow2(i), Pow2(n - i));
  }

  lemma NextMultiple(q: nat, p: nat, c: nat)
    requires p > 0 && q % p == 0 && q < c * p
    ensures q + p <= c * p
  {
    var k := q / p;
    QuotientBelow(q, p, c);
    MulMonotone(k + 1, c, p);
    assert (k + 1) * p == k * p + p;
  }

  /** Setting the next digit of a quotient whose lower digits are clear. */
  lemma SetDigit(q: nat, i: nat)
    requires i > 0 && q % Pow2(i) == 0
    ensures Or(q, Pow2(i - 1)) == q + Pow2(i - 1) && Or(q, 0) == q
    ensures q % Pow2(i - 1) == 0 && (q + Pow2(i - 1)) % Pow2(i - 1) == 0
  {
    assert Pow2(i) == 2 * Pow2(i - 1);
    LowDigitClear(q, Pow2(i - 1));
    OrIsSum(q / Pow2(i), Pow2(i - 1), i);
    OrZero(q);
  }

  lemma LowDigitClear(q: nat, p: nat)
    requires p > 0 && q % (2 * p) == 0
    ensures q / (2 * p) * (2 * p) == q && q % p == 0 && (q + p) % p == 0
  {
    var k := q / (2 * p);
    Doubled(k, p);
    DivModUnique(q, p, 2 * k, 0);
    DivModUnique(q + p, p, 2 * k + 1, 0);
  }

  // ----- the digits are right for divisors up to half the range -----

  /** The partial remainder lies in [-d, d), and the digits so far account for the rest. */
  ghost predicate Partial(num: nat, q: nat, r: int, d: nat, i: nat, n: nat) {
    && 0 - d <= r < d
    && num * Pow2(n) == r * Pow2(i) + d * (2 * q - Pow2(n) + Pow2(i))
  }

  lemma PartialStep(num: nat, q: nat, r: int, d: nat, i: nat, n: nat)
    requires i > 0 && Partial(num, q, r, d, i, n)
    ensures r >= 0 ==> Partial(num, q + Pow2(i - 1), 2 * r - d, d, i - 1, n)
    ensures r < 0 ==> Partial(num, q, 2 * r + d, d, i - 1, n)
  {
    PartialArithmetic(num * Pow2(n), q, r, d, Pow2(i - 1), Pow2(n));
    assert Pow2(i) == 2 * Pow2(i - 1);
  }

  lemma PartialArithmetic(total: int, q: int, r: int, d: int, p: int, m: int)
    requires total == r * (2 * p) + d * (2 * q - m + 2 * p)
    ensures total == (2 * r - d) * p + d * (2 * (q + p) - m + p)
    ensures total == (2 * r + d) * p + d * (2 * q - m + p)
  {
    assert d * (2 * q - m + 2 * p) == d * (2 * q - m) + 2 * (d * p);
    assert d * (2 * (q + p) - m + p) == d * (2 * q - m) + 3 * (d * p);
    assert d * (2 * q - m + p) == d * (2 * q - m) + d * p;
    assert (2 * r - d) * p == 2 * (r * p) - d * p;
    assert (2 * r + d) * p == 2 * (r * p) + d * p;
    assert r * (2 * p) == 2 * (r * p);
  }

  /** With d at most half the range of a 2n-bit word, the word of a partial remainder shows
      its sign, and doubling and subtracting or adding d loses nothing. */
  lemma WordStep(r: int, d: nat, n: nat)
    requires n >= 1 && 0 - d <= r < d && 2 * d <= Pow2(2 * n)
    ensures var w := WordOf(r, 2 * n);
      && Signed(w, 2 * n) == r
      && Sub(ShiftLeft(w, 1, 2 * n), d, 2 * n) == WordOf(2 * r - d, 2 * n)
      && Add(ShiftLeft(w, 1, 2 * n), d, 2 * n) == WordOf(2 * r + d, 2 * n)
  {
    hide Pow2;
    Pow2Of1();
    var m := Pow2(2 * n);
    var w := WordOf(r, 2 * n);
    SignShows(r, d, m);
    assert ShiftLeft(w, 1, 2 * n) == w * 2 % m;
    DoubledWord(w, r, d, m);
    DoubledWord(w, r, 0 - d, m);
  }

  lemma SignShows(r: int, d: nat, m: nat)
    requires 0 - d <= r < d && 2 * d <= m
    ensures m > 0 && (if 2 * (r % m) < m then r % m else r % m - m) == r
  {
    if r >= 0 {
      DivModUnique(r, m, 0, r);
    } else {
      DivModUnique(r, m, -1, r + m);
    }
  }

  lemma DoubledWord(w: int, r: int, d: int, m: nat)
    requires m > 0 && w == r % m
    ensures (w * 2 % m + d) % m == (2 * r + d) % m
  {
    AddResidues(w, r, w, r, m);
    AddMod(d, 2 * r, m);
    assert w * 2 == w + w && 2 * r == r + r;
  }

  lemma {:induction false} DigitsAreRight(num: nat, q: nat, r: int, d: nat, i: nat, n: nat)
    requires n >= 1 && i <= n && 2 * d <= Pow2(2 * n)
    requires Fits(q, n) && q % Pow2(i) == 0 && Partial(num, q, r, d, i, n)
    ensures var x := Digits(q, WordOf(r, 2 * n), d, i, n);
      exists s :: Partial(num, x.q, s, d, 0, n) && x.r == WordOf(s, 2 * n)
    decreases i
  {
    if i == 0 {
      assert Digits(q, WordOf(r, 2 * n), d, 0, n) == Quotient(q, WordOf(r, 2 * n));
    } else {
      hide Partial, Or;
      assert 0 - d <= r < d by { PartialRange(num, q, r, d, i, n); }
      WordStep(r, d, n);
      PartialStep(num, q, r, d, i, n);
      SetDigit(q, i);
      PlaceFits(q, i, n);
      if r >= 0 {
        DigitsAreRight(num, q + Pow2(i - 1), 2 * r - d, d, i - 1, n);
      } else {
        DigitsAreRight(num, q, 2 * r + d, d, i - 1, n);
      }
    }
  }

  lemma PartialRange(num: nat, q: nat, r: int, d: nat, i: nat, n: nat)
    requires Partial(num, q, r, d, i, n)
    ensures 0 - d <= r < d
  {
    hide Pow2;
  }

  /** What is left of Partial when no digit is to go. */
  lemma LastPartial(num: nat, denom: nat, q: nat, s: int, n: nat)
    requires Partial(num, q, s, denom * Pow2(n), 0, n) && denom > 0
    ensures var rest := num - denom * (2 * q - Pow2(n) + 1);
      s == rest * Pow2(n) && 0 - denom <= rest < denom
  {
    assert Pow2(0) == 1;
    hide Pow2;
    LastArithmetic(num, denom, 2 * q - Pow2(n) + 1, s, Pow2(n));
  }

  lemma LastArithmetic(num: nat, denom: nat, c: int, s: int, m: nat)
    requires m > 0 && 0 - denom * m <= s < denom * m && num * m == s + denom * m * c
    ensures s == (num - denom * c) * m && 0 - denom <= num - denom * c < denom
  {
    var rest := num - denom * c;
    assert denom * m * c == denom * c * m;
    assert rest * m == num * m - denom * c * m;
    MulMonotone(denom, rest, m);
    MulMonotone(rest, 0 - denom - 1, m);
    assert (0 - denom - 1) * m == 0 - denom * m - m;
  }

  function DivMod(num: nat, denom: nat): Quotient
    requires denom > 0
  {
    Quotient(num / denom, num % denom)
  }

  lemma CorrectedIsExact(num: nat, denom: nat, q: nat, s: int, n: nat)
    requires n >= 1 && Fits(num, n) && denom > 0 && 2 * denom <= Pow2(n) && Fits(q, n)
    requires Partial(num, q, s, denom * Pow2(n), 0, n)
    ensures Correct(Quotient(q, WordOf(s, 2 * n)), denom * Pow2(n), n) == DivMod(num, denom)
  {
    hide Pow2, Partial, Signed, WordOf, ShiftRight, Add, Sub;
    var d := denom * Pow2(n);
    LastPartial(num, denom, q, s, n);
    PartialRange(num, q, s, d, 0, n);
    DivisorFits(denom, n);
    WordStep(s, d, n);
    ConvertedIs(q, n);
    if s < 0 {
      RemainderNegative(num, denom, 2 * q - Pow2(n) + 1, s, n);
    } else {
      RemainderPositive(num, denom, 2 * q - Pow2(n) + 1, s, n);
    }
  }

  lemma ConvertedIs(q: nat, n: nat)
    requires Fits(q, n)
    ensures Sub(q, Not(q, n), n) == (2 * q - Pow2(n) + 1) % Pow2(n)
  {
    hide Pow2;
    assert q - (Pow2(n) - 1 - q) == 2 * q - Pow2(n) + 1;
  }

  lemma RemainderNegative(num: nat, denom: nat, c: int, s: int, n: nat)
    requires Fits(num, n) && denom > 0 && 2 * (denom * Pow2(n)) <= Pow2(2 * n)
    requires s == (num - denom * c) * Pow2(n) && 0 - denom <= num - denom * c && s < 0
    ensures Sub(c % Pow2(n), 1, n) == num / denom
    ensures ShiftRight(Add(WordOf(s, 2 * n), denom * Pow2(n), 2 * n), n) == num % denom
  {
    hide Pow2;
    var m, rest := Pow2(n), num - denom * c;
    MulMonotone(0, rest, m);
    AddMod(-1, c, m);
    assert denom * (c - 1) == denom * c - denom;
    QuotientIs(num, denom, c - 1, rest + denom, n);
    RestComesBack(rest, denom, n);
  }

  lemma RestComesBack(rest: int, denom: nat, n: nat)
    requires 0 - denom <= rest && rest * Pow2(n) < 0 && 2 * (denom * Pow2(n)) <= Pow2(2 * n)
    ensures ShiftRight(Add(WordOf(rest * Pow2(n), 2 * n), denom * Pow2(n), 2 * n), n) == rest + denom
  {
    hide Pow2;
    var m := Pow2(n);
    assert (rest + denom) * m == rest * m + denom * m;
    MulMonotone(0, rest + denom, m);
    Restored(rest * m, denom * m, Pow2(2 * n));
    ShiftBack(rest + denom, n);
  }

  lemma RemainderPositive(num: nat, denom: nat, c: int, s: int, n: nat)
    requires Fits(num, n) && denom > 0 && 2 * (denom * Pow2(n)) <= Pow2(2 * n)
    requires s == (num - denom * c) * Pow2(n) && num - denom * c < denom && s >= 0
    ensures c % Pow2(n) == num / denom
    ensures ShiftRight(WordOf(s, 2 * n), n) == num % denom
  {
    hide Pow2;
    var m, rest := Pow2(n), num - denom * c;
    MulMonotone(rest, -1, m);
    QuotientIs(num, denom, c, rest, n);
    MulMonotone(rest, denom, m);
    DivModUnique(s, Pow2(2 * n), 0, s);
    ShiftBack(rest, n);
  }

  lemma DivisorFits(denom: nat, n: nat)
    requires 2 * denom <= Pow2(n)
    ensures 2 * (denom * Pow2(n)) <= Pow2(2 * n)
  {
    hide Pow2;
    Square(n);
    MulMonotone(2 * denom, Pow2(n), Pow2(n));
    assert 2 * denom * Pow2(n) == 2 * (denom * Pow2(n));
  }

  lemma QuotientIs(num: nat, denom: nat, q: int, r: int, n: nat)
    requires Fits(num, n) && 0 <= r < denom && num == denom * q + r
    ensures q % Pow2(n) == q == num / denom && r == num % denom
  {
    hide Pow2;
    DivModUnique(num, denom, q, r);
    MulMonotone(q, -1, denom);
    assert (-1) * denom == 0 - denom;
    MulAtLeast(denom, q);
    DivModUnique(q, Pow2(n), 0, q);
  }

  /** Adding d back to the word of a negative remainder. */
  lemma Restored(s: int, d: nat, mm: nat)
    requires 0 - d <= s < 0 && 2 * d <= mm
    ensures mm > 0 && (s % mm + d) % mm == s + d
  {
    DivModUnique(s, mm, -1, s + mm);
    DivModUnique(s + mm + d, mm, 1, s + d);
  }

  lemma ShiftBack(x: nat, n: nat)
    ensures ShiftRight(x * Pow2(n), n) == x
  {
    DivModUnique(x * Pow2(n), Pow2(n), x, 0);
  }

  /** Exact for every numerator and every divisor from 1 to 2^(n-1). */
  lemma DivideIsExact(num: nat, denom: nat, n: nat)
    requires n >= 1 && Fits(num, n) && Fits(denom, n) && 0 < denom <= Pow2(n - 1)
    ensures Divide(num, denom, n) == DivMod(num, denom)
  {
    assert Pow2(n) == 2 * Pow2(n - 1);
    StartsRight(num, denom, n);
    LoopIsExact(num, denom, n);
  }

  lemma LoopIsExact(num: nat, denom: nat, n: nat)
    requires n >= 1 && Fits(num, n) && denom > 0 && 2 * denom <= Pow2(n)
    requires Partial(num, 0, num, denom * Pow2(n), n, n)
    requires WordOf(num, 2 * n) == num && Fits(0, n) && 0 % Pow2(n) == 0
    ensures var d := denom * Pow2(n); var x := Digits(0, num, d, n, n);
      Fits(x.q, n) && Correct(x, d, n) == DivMod(num, denom)
  {
    hide Pow2, Partial, Digits, Correct;
    var d := denom * Pow2(n);
    DivisorFits(denom, n);
    DigitsFit(0, num, d, n, n);
    DigitsAreRight(num, 0, num, d, n, n);
    var x := Digits(0, num, d, n, n);
    var s :| Partial(num, x.q, s, d, 0, n) && x.r == WordOf(s, 2 * n);
    CorrectedIsExact(num, denom, x.q, s, n);
  }

  lemma StartsRight(num: nat, denom: nat, n: nat)
    requires n >= 1 && Fits(num, n) && denom > 0 && 2 * denom <= Pow2(n)
    ensures Partial(num, 0, num, denom * Pow2(n), n, n)
    ensures WordOf(num, 2 * n) == num && ShiftLeft(denom, n, 2 * n) == denom * Pow2(n)
    ensures Fits(0, n) && 0 % Pow2(n) == 0
  {
    hide Pow2;
    var m := Pow2(n);
    Square(n);
    MulMonotone(1, denom, m);
    DivisorFits(denom, n);
    DivModUnique(num, Pow2(2 * n), 0, num);
    DivModUnique(denom * m, Pow2(2 * n), 0, denom * m);
    assert denom * m * 0 == 0;
  }

  // ----- and wrong for every larger one -----

  /** A divisor above half the range does not fit the signed partial remainder: dividing 0
      by it, the first subtraction already looks non-negative. */
  lemma ZeroOverLarge(denom: nat, n: nat)
    requires n >= 2 && Pow2(n - 1) < denom && Fits(denom, n)
    ensures Fits(0, n) && Divide(0, denom, n).q != 0
  {
    var d, m := denom * Pow2(n), Pow2(n);
    assert m == 2 * Pow2(n - 1) == 4 * Pow2(n - 2);
    LargeDivisor(denom, n);
    DigitsFit(0, 0, d, n, n);
    TwoDigits(d, n);
    OddOrHigh(Digits(0, 0, d, n, n).q, m, Pow2(n - 2));
  }

  lemma LargeDivisor(denom: nat, n: nat)
    requires n >= 1 && Pow2(n - 1) < denom && Fits(denom, n)
    ensures Pow2(2 * n) < 2 * (denom * Pow2(n)) && denom * Pow2(n) < Pow2(2 * n)
    ensures ShiftLeft(denom, n, 2 * n) == denom * Pow2(n)
    ensures Fits(0, n) && 0 % Pow2(n) == 0
  {
    assert Pow2(n) == 2 * Pow2(n - 1);
    LargeShifted(denom, n);
  }

  lemma LargeShifted(denom: nat, n: nat)
    requires Pow2(n) < 2 * denom && Fits(denom, n)
    ensures Pow2(2 * n) < 2 * (denom * Pow2(n)) && denom * Pow2(n) < Pow2(2 * n)
    ensures ShiftLeft(denom, n, 2 * n) == denom * Pow2(n)
    ensures Fits(0, n) && 0 % Pow2(n) == 0
  {
    hide Pow2;
    var m := Pow2(n);
    Square(n);
    MulMonotone(m + 1, 2 * denom, m);
    MulMonotone(denom + 1, m, m);
    assert (m + 1) * m == m * m + m && (denom + 1) * m == denom * m + m;
    assert 2 * denom * m == 2 * (denom * m);
    DivModUnique(denom * m, Pow2(2 * n), 0, denom * m);
  }

  /** The first two digits of the quotient are both set. */
  lemma TwoDigits(d: nat, n: nat)
    requires n >= 2 && Pow2(2 * n) < 2 * d && d < Pow2(2 * n)
    requires Fits(0, n) && 0 % Pow2(n) == 0
    ensures 3 * Pow2(n - 2) <= Digits(0, 0, d, n, n).q < Pow2(n)
  {
    var p := Pow2(n - 2);
    assert Pow2(n - 1) == 2 * p && Pow2(n) == 4 * p;
    SetDigit(0, n);
    DivModUnique(2 * p, 2 * p, 1, 0);
    SetDigit(2 * p, n - 1);
    FirstTwo(d, p, n);
  }

  lemma FirstTwo(d: nat, p: nat, n: nat)
    requires n >= 2 && Pow2(2 * n) < 2 * d && d < Pow2(2 * n)
    requires p == Pow2(n - 2) && Pow2(n - 1) == 2 * p && Pow2(n) == 4 * p
    requires Or(0, 2 * p) == 2 * p && Or(2 * p, p) == 3 * p && 3 * p % p == 0
    ensures 3 * p <= Digits(0, 0, d, n, n).q < Pow2(n)
  {
    hide Pow2, Or;
    var mm := Pow2(2 * n);
    var r := Sub(ShiftLeft(0, 1, 2 * n), d, 2 * n);
    DivModUnique(0, mm, 0, 0);
    assert r == mm - d by { DivModUnique(0 - d, mm, -1, mm - d); }
    var rr := Sub(ShiftLeft(r, 1, 2 * n), d, 2 * n);
    DigitsFit(3 * p, rr, d, n - 2, n);
    assert Digits(2 * p, r, d, n - 1, n) == Digits(3 * p, rr, d, n - 2, n);
  }

  /** With both leading digits set, neither the conversion nor the correction gives 0. */
  lemma OddOrHigh(q: nat, m: nat, p: nat)
    requires m == 4 * p && 3 * p <= q < m && p > 0
    ensures (q - (m - 1 - q)) % m != 0
    ensures ((q - (m - 1 - q)) % m - 1) % m != 0
  {
    DivModUnique(q - (m - 1 - q), m, 0, 2 * q + 1 - m);
    DivModUnique(2 * q - m, m, 0, 2 * q - m);
  }

  ghost predicate ExactFor(num: nat, denom: nat, n: nat)
    requires n >= 1 && Fits(denom, n) && denom > 0
  {
    Fits(num, n) ==> Divide(num, denom, n) == DivMod(num, denom)
  }

  /** A divisor is supported, that is divides every numerator exactly, if and only if it
      is at most 2^(n-1). */
  lemma SupportedIff(denom: nat, n: nat)
    requires n >= 1 && 0 < denom && Fits(denom, n)
    ensures (forall num: nat :: ExactFor(num, denom, n)) <==> denom <= Pow2(n - 1)
  {
    if denom <= Pow2(n - 1) {
      forall num: nat
        ensures ExactFor(num, denom, n)
      {
        if Fits(num, n) {
          DivideIsExact(num, denom, n);
        }
      }
    } else {
      assert n >= 2 by { assert Pow2(0) == 1 && Pow2(1) == 2 * Pow2(0); }
      ZeroOverLarge(denom, n);
      DivModUnique(0, denom, 0, 0);
      assert !ExactFor(0, denom, n);
    }
  }

  // ----- the routines -----

  /** With a machine type of twice the width. */
  method UDivNative(num: nat, denom: nat, n: nat) returns (q: nat, r: nat)
    requires n >= 1 && Fits(num, n) && Fits(denom, n)
    ensures Quotient(q, r) == Divide(num, denom, n)
    ensures 0 < denom <= Pow2(n - 1) ==> q == num / denom && r == num % denom
  {
    var rest := num;
    var d := ShiftLeft(denom, n, 2 * n);
    q := 0;
    DigitsFit(0, num, d, n, n);
    for i := n downto 0
      invariant Digits(q, rest, d, i, n) == Digits(0, num, d, n, n)
    {
      if Signed(rest, 2 * n) >= 0 {
        q := Or(q, Pow2(i));
        rest := Sub(ShiftLeft(rest, 1, 2 * n), d, 2 * n);
      } else {
        q := Or(q, 0);
        rest := Add(ShiftLeft(rest, 1, 2 * n), d, 2 * n);
      }
    }
    q := Sub(q, Not(q, n), n);
    if Signed(rest, 2 * n) < 0 {
      q := Sub(q, 1, n);
      rest := Add(rest, d, 2 * n);
    }
    r := ShiftRight(rest, n);
    if 0 < denom <= Pow2(n - 1) {
      DivideIsExact(num, denom, n);
    }
  }

  /** With the double width emulated out of two n-bit halves. */
  method UDivEmulated(num: nat, denom: nat, n: nat) returns (q: nat, r: nat)
    requires n >= 1 && Fits(num, n) && Fits(denom, n)
    ensures Quotient(q, r) == Divide(num, denom, n)
    ensures 0 < denom <= Pow2(n - 1) ==> q == num / denom && r == num % denom
  {
    hide Pow2, Digits, Or, Signed, CompareSplit;
    var rest := Whole(Split(0, num), n);
    var d := Whole(Split(denom, 0), n);
    WholeRoundTrip(Split(0, num), n);
    WholeRoundTrip(Split(denom, 0), n);
    DivModUnique(d, Pow2(2 * n), 0, d);
    assert rest == num && d == ShiftLeft(denom, n, 2 * n);
    q := 0;
    DigitsFit(0, num, d, n, n);
    for i := n downto 0
      invariant Fits(rest, 2 * n) && Digits(q, rest, d, i, n) == Digits(0, num, d, n, n)
    {
      DigitsUnfold(q, rest, d, i + 1, n);
      SignOf(rest, n);
      if CompareSplit(rest, 0, n, true) >= 0 {
        q := Or(q, Pow2(i));
        rest := ShiftLeftSplit(rest, 1, n);
        rest := SubNeg(rest, d, n);
      } else {
        q := Or(q, 0);
        rest := ShiftLeftSplit(rest, 1, n);
        rest := AddSplit(rest, d, n);
      }
    }
    NoDigits(q, rest, d, n);
    SignOf(rest, n);
    q := Sub(q, Not(q, n), n);
    if CompareSplit(rest, 0, n, true) < 0 {
      q := Sub(q, 1, n);
      rest := AddSplit(rest, d, n);
    }
    r := SplitOf(rest, n).high;
    if 0 < denom <= Pow2(n - 1) {
      DivideIsExact(num, denom, n);
    }
  }

  lemma DigitsUnfold(q: nat, r: nat, d: nat, i: nat, n: nat)
    requires i > 0
    ensures Digits(q, r, d, i, n)
         == if Signed(r, 2 * n) >= 0 then
              Digits(Or(q, Pow2(i - 1)), Sub(ShiftLeft(r, 1, 2 * n), d, 2 * n), d, i - 1, n)
            else Digits(Or(q, 0), Add(ShiftLeft(r, 1, 2 * n), d, 2 * n), d, i - 1, n)
  {
    hide Pow2, Or;
  }

  lemma NoDigits(q: nat, r: nat, d: nat, n: nat)
    ensures Digits(q, r, d, 0, n) == Quotient(q, r)
  {
  }

  /** Comparing with zero shows the sign. */
  lemma SignOf(r: nat, n: nat)
    requires n >= 1 && Fits(r, 2 * n)
    ensures CompareSplit(r, 0, n, true) >= 0 <==> Signed(r, 2 * n) >= 0
  {
    hide Pow2, CompareSplit;
    CompareSplitIsCompare(r, 0, n);
  }

  // ----- signed -----

  predicate InRange(x: int, n: nat)
    requires n >= 1
  {
    0 - Pow2(n - 1) <= x < Pow2(n - 1)
  }

  function Abs(x: int): nat { if x < 0 then 0 - x else x }

  /** Negation of an n-bit signed value, wrapping for the least one. */
  function Negated(x: int, n: nat): int { Signed(WordOf(0 - x, n), n) }

  /** Truncating division: for every divisor but 0 the magnitudes stay within what the
      unsigned routine supports. */
  method IDivide(num: int, denom: int, n: nat) returns (q: int, r: int)
    requires n >= 1 && InRange(num, n) && InRange(denom, n)
    ensures denom != 0 ==> Abs(r) < Abs(denom) && (r != 0 ==> (r < 0 <==> num < 0))
    ensures denom != 0 && !(num == 0 - Pow2(n - 1) && denom == -1) ==> num == q * denom + r && InRange(q, n)
    ensures num == 0 - Pow2(n - 1) && denom == -1 ==> q == num && r == 0
  {
    MagnitudeFits(num, n);
    MagnitudeFits(denom, n);
    var unum := if num < 0 then WordOf(Negated(num, n), n) else WordOf(num, n);
    var udenom := if denom < 0 then WordOf(Negated(denom, n), n) else WordOf(denom, n);
    var uq, ur := UDivNative(unum, udenom, n);
    q := if (num < 0) != (denom < 0) then Negated(Signed(uq, n), n) else Signed(uq, n);
    r := if num < 0 then Negated(Signed(ur, n), n) else Signed(ur, n);
    if denom != 0 {
      SignedParts(num, denom, uq, ur, n);
    }
  }

  lemma MagnitudeFits(x: int, n: nat)
    requires n >= 1 && InRange(x, n)
    ensures (if x < 0 then WordOf(Negated(x, n), n) else WordOf(x, n)) == Abs(x)
    ensures Fits(Abs(x), n) && Abs(x) <= Pow2(n - 1)
  {
    var half: int := Pow2(n - 1);
    assert Pow2(n) == 2 * half;
    hide Pow2;
    DivModUnique(Abs(x), 2 * half, 0, Abs(x));
    if x == 0 - half {
      DivModUnique(0 - half, 2 * half, -1, half);
    }
  }

  lemma SignedParts(num: int, denom: int, uq: nat, ur: nat, n: nat)
    requires n >= 1 && InRange(num, n) && InRange(denom, n) && denom != 0
    requires uq == Abs(num) / Abs(denom) && ur == Abs(num) % Abs(denom)
    ensures var q := if (num < 0) != (denom < 0) then Negated(Signed(uq, n), n) else Signed(uq, n);
            var r := if num < 0 then Negated(Signed(ur, n), n) else Signed(ur, n);
      && Abs(r) < Abs(denom) && (r != 0 ==> (r < 0 <==> num < 0))
      && (!(num == 0 - Pow2(n - 1) && denom == -1) ==> num == q * denom + r && InRange(q, n))
      && (num == 0 - Pow2(n - 1) && denom == -1 ==> q == num && r == 0)
  {
    var half: int := Pow2(n - 1);
    assert Pow2(n) == 2 * half;
    hide Pow2, Signed, Negated;
    QuotientBounds(Abs(num), Abs(denom));
    BackToSigned(ur, half, n);
    BackToSigned(uq, half, n);
    Signs(uq, Abs(denom));
    if uq == half {
      MulAtLeast(uq, Abs(denom));
      MulMonotone(2, Abs(denom), uq);
    }
  }

  lemma QuotientBounds(a: nat, b: nat)
    requires b > 0
    ensures a == a / b * b + a % b && a / b <= a
  {
    MulAtLeast(b, a / b);
  }

  lemma Signs(u: int, b: int)
    ensures (0 - u) * b == 0 - u * b && u * (0 - b) == 0 - u * b && (0 - u) * (0 - b) == u * b
  {
  }

  /** Words up to half the range read as themselves, but for half the range itself, and
      negate exactly. */
  lemma BackToSigned(u: nat, half: int, n: nat)
    requires Pow2(n) == 2 * half && u <= half && half > 0
    ensures u < half ==> Signed(u, n) == u
    ensures u == half ==> Signed(u, n) == 0 - half
    ensures Negated(Signed(u, n), n) == 0 - u
  {
    hide Pow2;
    var x := Signed(u, n);
    if u == half {
      DivModUnique(half, 2 * half, 0, half);
    } else if u > 0 {
      DivModUnique(0 - u, 2 * half, -1, 2 * half - u);
    } else {
      DivModUnique(0, 2 * half, 0, 0);
    }
  }
}
