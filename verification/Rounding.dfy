/** Integer division with the rounding modes of the money package. */
module Rounding {
  import opened Numerals

  /** The mode is an integer in the source: every value but these two rounds half to even. */
  type Rounding = int
  const HALF_EVEN: Rounding := 0
  const HALF_UP: Rounding := 1
  const DOWN: Rounding := 2

  function Abs(x: int): nat {
    if x < 0 then -x else x
  }

  /** Truncated division: the quotient of the magnitudes, with the sign of the exact quotient. */
  function Quo(n: int, d: int): int
    requires d != 0
  {
    if (n < 0) != (d < 0) then -(Abs(n) / Abs(d)) else Abs(n) / Abs(d)
  }

  function Rem(n: int, d: int): int
    requires d != 0
  {
    n - Quo(n, d) * d
  }

  /** The quotient that the mode selects. */
  function DivRound(n: int, d: int, mode: Rounding): int
    requires d != 0
  {
    var q, twice := Quo(n, d), 2 * Abs(Rem(n, d));
    if mode == DOWN || twice < Abs(d) || (twice == Abs(d) && mode != HALF_UP && q % 2 == 0) then q
    else if (n < 0) != (d < 0) then q - 1
    else q + 1
  }

  /** The steps of `divRound`, which adjusts the truncated quotient in place. */
  method DivRoundInPlace(numerator: int, denominator: int, mode: Rounding) returns (quotient: int)
    requires denominator != 0
    ensures quotient == DivRound(numerator, denominator, mode)
  {
    quotient := Quo(numerator, denominator);
    var remainder := Rem(numerator, denominator);
    if remainder == 0 {
      return;
    }
    var negative := (numerator < 0) != (denominator < 0);
    if mode == DOWN {
      return;
    }
    var twice := 2 * Abs(remainder);
    var roundAway := false;
    if twice > Abs(denominator) {
      roundAway := true;
    } else if twice == Abs(denominator) {
      if mode == HALF_UP {
        roundAway := true;
      } else {
        roundAway := quotient % 2 == 1;
      }
    }
    if roundAway {
      quotient := if negative then quotient - 1 else quotient + 1;
    }
  }

  /** What each mode promises of q as the rounding of n/d: the half modes a nearest integer, with
      ties away from zero or to the even neighbour, and DOWN the nearest integer towards zero. */
  ghost predicate IsRounded(n: int, d: int, mode: Rounding, q: int) {
    IsNear(n, d, mode, q, q * d)
  }

  /** The same with x the multiple of d that q selects. */
  ghost predicate IsNear(n: int, d: int, mode: Rounding, q: int, x: int) {
    if mode == DOWN then
      Abs(x) <= Abs(n) && Abs(n - x) < Abs(d)
    else
      && 2 * Abs(x - n) <= Abs(d)
      && (2 * Abs(x - n) == Abs(d) ==> if mode == HALF_UP then Abs(x) > Abs(n) else q % 2 == 0)
  }

  // ---- signs ----

  lemma QuotientOfMagnitudes(m: nat, e: nat)
    requires e > 0
    ensures m == m / e * e + m % e && 0 <= m % e < e && m / e >= 0
  {
  }

  lemma QuoSigns(n: int, d: int)
    requires d != 0
    ensures Quo(-n, d) == -Quo(n, d) && Quo(n, -d) == -Quo(n, d)
    ensures Rem(-n, d) == -Rem(n, d) && Rem(n, -d) == Rem(n, d)
  {
    if n == 0 {
      assert 0 / Abs(d) == 0;
    }
    var q := Quo(n, d);
    assert (-q) * d == -(q * d) && (-q) * (-d) == q * d;
  }

  /** Rounding is odd in the numerator and in the denominator. */
  lemma OddSymmetry(n: int, d: int, mode: Rounding)
    requires d != 0
    ensures DivRound(-n, d, mode) == -DivRound(n, d, mode)
    ensures DivRound(n, -d, mode) == -DivRound(n, d, mode)
  {
    hide Quo, Rem;
    QuoSigns(n, d);
    ZeroRounds(d, mode);
  }

  lemma ZeroRounds(d: int, mode: Rounding)
    requires d != 0
    ensures DivRound(0, d, mode) == 0
  {
    assert 0 / Abs(d) == 0;
  }

  lemma RoundedSigns(n: int, d: int, mode: Rounding, q: int)
    ensures IsRounded(-n, d, mode, -q) <==> IsRounded(n, d, mode, q)
    ensures IsRounded(n, -d, mode, -q) <==> IsRounded(n, d, mode, q)
  {
    assert (-q) * d == -(q * d) && (-q) * (-d) == q * d;
  }

  lemma RoundedMagnitudes(n: nat, d: nat, mode: Rounding)
    requires d > 0
    ensures IsRounded(n, d, mode, DivRound(n, d, mode))
  {
    QuotientOfMagnitudes(n, d);
    var q := n / d;
    assert (q + 1) * d == q * d + d;
  }

  lemma DivRoundIsRounded(n: int, d: int, mode: Rounding)
    requires d != 0
    ensures IsRounded(n, d, mode, DivRound(n, d, mode))
  {
    hide IsRounded, DivRound;
    RoundedMagnitudes(Abs(n), Abs(d), mode);
    OddSymmetry(Abs(n), Abs(d), mode);
    OddSymmetry(n, Abs(d), mode);
    RoundedSigns(Abs(n), Abs(d), mode, DivRound(Abs(n), Abs(d), mode));
    RoundedSigns(n, Abs(d), mode, DivRound(n, Abs(d), mode));
  }

  // ---- uniqueness ----

  /** A non-zero multiple of d is at least as large as d. */
  lemma Multiple(k: int, d: int)
    ensures k != 0 ==> Abs(k * d) >= Abs(d)
    ensures d > 0 && k >= 1 ==> k * d >= d
    ensures d > 0 && k <= -1 ==> k * d <= -d
  {
    if k >= 1 {
      assert k * d == d + (k - 1) * d;
      assert (d >= 0 ==> (k - 1) * d >= 0) && (d <= 0 ==> (k - 1) * d <= 0);
    } else if k <= -1 {
      assert k * d == -d + (k + 1) * d;
      assert (d >= 0 ==> (k + 1) * d <= 0) && (d <= 0 ==> (k + 1) * d >= 0);
    }
  }

  lemma RoundedIsUnique(n: int, d: int, mode: Rounding, p: int, q: int)
    requires d != 0 && IsRounded(n, d, mode, p) && IsRounded(n, d, mode, q)
    ensures p == q
  {
    hide IsNear;
    if p != q {
      DifferentMultiples(p, q, d);
      OnlyTiesDiffer(n, d, mode, p, p * d, q, q * d);
      OppositeTies(n, d, p, q);
    }
  }

  lemma DifferentMultiples(p: int, q: int, d: int)
    requires p != q
    ensures Abs(p * d - q * d) >= Abs(d)
  {
    Multiple(p - q, d);
    assert (p - q) * d == p * d - q * d;
  }

  /** Two multiples at least d apart are both near n only as the two sides of a tie. */
  lemma OnlyTiesDiffer(n: int, d: int, mode: Rounding, p: int, x: int, q: int, y: int)
    requires IsNear(n, d, mode, p, x) && IsNear(n, d, mode, q, y) && Abs(x - y) >= Abs(d) > 0
    ensures x - n == n - y && 2 * Abs(x - n) == Abs(d)
    ensures if mode == HALF_UP then Abs(x) > Abs(n) && Abs(y) > Abs(n) else p % 2 == 0 && q % 2 == 0
  {
  }

  /** Two integers a tie apart have opposite parity and are not both further from zero. */
  lemma OppositeTies(n: int, d: int, p: int, q: int)
    requires d != 0 && p * d - n == n - q * d && 2 * Abs(p * d - n) == Abs(d)
    ensures (p - q) % 2 == 1 && !(Abs(p * d) > Abs(n) && Abs(q * d) > Abs(n))
  {
    TieSum(n, d, p, q);
    UnitFactor(p - q, d);
    LargerMultiple(2 * p, p + q, d);
    LargerMultiple(2 * q, p + q, d);
  }

  lemma TieSum(n: int, d: int, p: int, q: int)
    requires p * d - n == n - q * d && 2 * Abs(p * d - n) == Abs(d)
    ensures Abs((p - q) * d) == Abs(d) && (p + q) * d == 2 * n
    ensures 2 * p * d == 2 * (p * d) && 2 * q * d == 2 * (q * d)
  {
  }

  lemma UnitFactor(k: int, d: int)
    requires d != 0 && Abs(k * d) == Abs(d)
    ensures k == 1 || k == -1
  {
    Multiple(k - 1, d);
    Multiple(k + 1, d);
    assert (k - 1) * d == k * d - d && (k + 1) * d == k * d + d;
  }

  lemma LargerMultiple(j: int, k: int, d: int)
    requires d != 0
    ensures Abs(j * d) > Abs(k * d) ==> Abs(j) > Abs(k)
  {
    AbsOfProduct(j, d);
    AbsOfProduct(k, d);
    if Abs(j) <= Abs(k) {
      MulMonotone(Abs(j), Abs(k), Abs(d));
    }
  }

  lemma AbsOfProduct(x: int, y: int)
    ensures Abs(x * y) == Abs(x) * Abs(y)
  {
    assert (-x) * y == -(x * y) && x * (-y) == -(x * y) && (-x) * (-y) == x * y;
    MulMonotone(0, Abs(x), Abs(y));
  }

  /** DivRound is the rounding each mode promises, for every numerator and non-zero denominator. */
  lemma DivRoundCorrect(n: int, d: int, mode: Rounding, q: int)
    requires d != 0
    ensures q == DivRound(n, d, mode) <==> IsRounded(n, d, mode, q)
  {
    DivRoundIsRounded(n, d, mode);
    if IsRounded(n, d, mode, q) {
      RoundedIsUnique(n, d, mode, q, DivRound(n, d, mode));
    }
  }

  /** Every mode value that is not one of the other two rounds half to even. */
  lemma OtherModesAreHalfEven(n: int, d: int, mode: Rounding)
    requires d != 0 && mode != HALF_UP && mode != DOWN
    ensures DivRound(n, d, mode) == DivRound(n, d, HALF_EVEN)
  {
    DivRoundIsRounded(n, d, mode);
    DivRoundCorrect(n, d, HALF_EVEN, DivRound(n, d, mode));
  }

  /** Each mode by its number in the source, on the ties 2.5, 3.5 and -2.5 and on 2.75. */
  lemma ModesByNumber()
    ensures DivRound(5, 2, 0) == 2 && DivRound(7, 2, 0) == 4 && DivRound(-5, 2, 0) == -2 && DivRound(11, 4, 0) == 3
    ensures DivRound(5, 2, 1) == 3 && DivRound(7, 2, 1) == 4 && DivRound(-5, 2, 1) == -3 && DivRound(11, 4, 1) == 3
    ensures DivRound(5, 2, 2) == 2 && DivRound(7, 2, 2) == 3 && DivRound(-5, 2, 2) == -2 && DivRound(11, 4, 2) == 2
  {
    assert Quo(-5, 2) == -2;
  }

  /** A common factor of numerator and denominator does not matter. */
  lemma CommonFactor(n: int, d: int, c: nat, mode: Rounding)
    requires d != 0 && c > 0
    ensures d * c != 0 && DivRound(n * c, d * c, mode) == DivRound(n, d, mode)
  {
    hide DivRound, IsNear;
    var q := DivRound(n, d, mode);
    DivRoundIsRounded(n, d, mode);
    NearScales(n, d, c, mode, q, q * d);
    assert q * (d * c) == q * d * c;
    DivRoundCorrect(n * c, d * c, mode, q);
  }

  lemma NearScales(n: int, d: int, c: nat, mode: Rounding, q: int, x: int)
    requires d != 0 && c > 0 && IsNear(n, d, mode, q, x)
    ensures d * c != 0 && IsNear(n * c, d * c, mode, q, x * c)
  {
    hide IsNear;
    CompareScaled(0, d, c);
    CompareScaled(x, n, c);
    CompareScaled(n - x, d, c);
    CompareScaled(2 * (x - n), d, c);
    CompareScaled(d, 2 * (x - n), c);
    Distributes(n, x, c);
    SameComparisons(n, d, x, n * c, d * c, x * c, mode, q);
  }

  lemma Distributes(n: int, x: int, c: int)
    ensures (n - x) * c == n * c - x * c && 2 * (x - n) * c == 2 * (x * c - n * c)
  {
  }

  lemma CompareScaled(u: int, v: int, c: nat)
    requires c > 0
    ensures Abs(u) <= Abs(v) <==> Abs(u * c) <= Abs(v * c)
    ensures Abs(u) < Abs(v) <==> Abs(u * c) < Abs(v * c)
  {
    AbsOfProduct(u, c);
    AbsOfProduct(v, c);
    ScaledOrder(Abs(u), Abs(v), c);
  }

  lemma SameComparisons(n: int, d: int, x: int, n': int, d': int, x': int, mode: Rounding, q: int)
    requires IsNear(n, d, mode, q, x)
    requires (Abs(x) <= Abs(n) <==> Abs(x') <= Abs(n')) && (Abs(n - x) < Abs(d) <==> Abs(n' - x') < Abs(d'))
    requires 2 * Abs(x - n) <= Abs(d) <==> 2 * Abs(x' - n') <= Abs(d')
    requires 2 * Abs(x - n) == Abs(d) <==> 2 * Abs(x' - n') == Abs(d')
    ensures IsNear(n', d', mode, q, x')
  {
  }

  lemma ScaledOrder(a: nat, b: nat, c: nat)
    requires c > 0
    ensures a <= b <==> a * c <= b * c
    ensures a < b <==> a * c < b * c
    ensures a == b <==> a * c == b * c
  {
    if a < b {
      MulMonotone(a + 1, b, c);
    } else {
      MulMonotone(b, a, c);
      if b < a {
        MulMonotone(b + 1, a, c);
      }
    }
  }

  /** Rounding never reverses the order of two numerators over a positive denominator. */
  lemma Monotone(m: int, n: int, d: int, mode: Rounding)
    requires m <= n && d > 0
    ensures DivRound(m, d, mode) <= DivRound(n, d, mode)
  {
    hide DivRound;
    var p, q := DivRound(m, d, mode), DivRound(n, d, mode);
    DivRoundIsRounded(m, d, mode);
    DivRoundIsRounded(n, d, mode);
    RoundedGap(m, n, d, mode, p, q);
    Multiple(p - q, d);
  }

  lemma RoundedGap(m: int, n: int, d: int, mode: Rounding, p: int, q: int)
    requires m <= n && d > 0 && IsRounded(m, d, mode, p) && IsRounded(n, d, mode, q)
    ensures (p - q) * d < d || m == n
  {
    assert (p - q) * d == p * d - q * d;
    if mode == DOWN {
      SignOfTruncated(m, d, p);
      SignOfTruncated(n, d, q);
    }
  }

  lemma SignOfTruncated(n: int, d: int, q: int)
    requires d > 0 && IsRounded(n, d, DOWN, q)
    ensures n >= 0 ==> 0 <= q * d <= n
    ensures n <= 0 ==> n <= q * d <= 0
  {
    Multiple(q, d);
  }
}
