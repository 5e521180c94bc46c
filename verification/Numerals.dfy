/** Positional numerals, most significant digit first, in any base. */
module Numerals {

  function Pow(base: nat, e: nat): nat {
    if e == 0 then 1 else base * Pow(base, e - 1)
  }

  /** The number that a digit sequence denotes. */
  function Value(digits: seq<nat>, base: nat): nat {
    if digits == [] then 0 else Value(digits[..|digits| - 1], base) * base + digits[|digits| - 1]
  }

  ghost predicate AreDigits(digits: seq<nat>, base: nat) {
    forall k :: 0 <= k < |digits| ==> digits[k] < base
  }

  /** The numeral of n with exactly `width` digits; higher digits are dropped. */
  function Digits(n: nat, base: nat, width: nat): (digits: seq<nat>)
    requires base > 0
    ensures |digits| == width
    ensures AreDigits(digits, base)
    decreases width
  {
    if width == 0 then [] else
      QuotientIsNat(n, base);
      Digits(n / base, base, width - 1) + [n % base]
  }

  /** Order of two equally long digit sequences, decided at the first place they differ. */
  ghost predicate LexLess(a: seq<nat>, b: seq<nat>) {
    exists k :: 0 <= k < |a| && k < |b| && a[..k] == b[..k] && a[k] < b[k]
  }

  lemma {:induction false} PowAdd(base: nat, m: nat, n: nat)
    ensures Pow(base, m + n) == Pow(base, m) * Pow(base, n)
    decreases m
  {
    if m > 0 {
      PowAdd(base, m - 1, n);
      MulRotate(base, Pow(base, m - 1), Pow(base, n));
    }
  }

  lemma MulRotate(x: int, y: int, z: int)
    ensures x * (y * z) == x * y * z
  {
  }

  lemma {:induction false} ValueOfConcat(a: seq<nat>, b: seq<nat>, base: nat)
    ensures Value(a + b, base) == Value(a, base) * Pow(base, |b|) + Value(b, base)
  {
    if b == [] {
      assert a + b == a;
    } else {
      var b', d := b[..|b| - 1], b[|b| - 1];
      assert (a + b)[..|a + b| - 1] == a + b';
      ValueOfConcat(a, b', base);
      AppendDigit(Value(a, base), Pow(base, |b'|), Value(b', base), d, base);
    }
  }

  lemma AppendDigit(x: int, power: int, y: int, d: int, base: int)
    ensures (x * power + y) * base + d == x * (base * power) + (y * base + d)
  {
    MulAssoc(x, power, base);
  }

  lemma ValueOfNothing(base: nat)
    ensures Value([], base) == 0
  {
  }

  lemma ValueOfPrefix(digits: seq<nat>, m: nat, base: nat)
    requires 1 <= m <= |digits|
    ensures Value(digits[..m], base) == Value(digits[..m - 1], base) * base + digits[m - 1]
  {
    assert digits[..m][..m - 1] == digits[..m - 1];
  }

  lemma MulAssoc(x: int, y: int, z: int)
    ensures x * y * z == x * (z * y)
  {
  }

  lemma {:induction false} ValueBound(digits: seq<nat>, base: nat)
    requires AreDigits(digits, base)
    ensures Value(digits, base) < Pow(base, |digits|)
  {
    if digits != [] {
      var p, d := digits[..|digits| - 1], digits[|digits| - 1];
      ValueBound(p, base);
      LastDigitBound(Value(p, base), d, Pow(base, |p|), base);
    }
  }

  lemma LastDigitBound(x: nat, d: nat, limit: nat, base: nat)
    requires x < limit && d < base
    ensures x * base + d < base * limit
  {
    MulMonotone(x + 1, limit, base);
  }

  /** A number below base^width is the value of its numeral. */
  lemma {:induction false} DigitsHaveValue(n: nat, base: nat, width: nat)
    requires base > 0 && n < Pow(base, width)
    ensures Value(Digits(n, base, width), base) == n
    decreases width
  {
    if width > 0 {
      QuotientIsNat(n, base);
      QuotientBelow(n, base, Pow(base, width - 1));
      DigitsHaveValue(n / base, base, width - 1);
      assert Digits(n, base, width)[..width - 1] == Digits(n / base, base, width - 1);
    }
  }

  lemma QuotientBelow(n: nat, base: nat, limit: nat)
    requires base > 0 && n < base * limit
    ensures n / base < limit
  {
    QuotientIsNat(n, base);
    if n / base >= limit {
      MulMonotone(limit, n / base, base);
      assert false;
    }
  }

  /** A digit sequence is the numeral of its own value. */
  lemma {:induction false} NumeralOfValue(digits: seq<nat>, base: nat)
    requires base > 0 && AreDigits(digits, base)
    ensures Digits(Value(digits, base), base, |digits|) == digits
  {
    if digits != [] {
      var p, d := digits[..|digits| - 1], digits[|digits| - 1];
      NumeralOfValue(p, base);
      QuotientAndRemainder(Value(p, base), d, base);
      assert digits == p + [d];
    }
  }

  lemma QuotientAndRemainder(q: nat, r: nat, base: nat)
    requires r < base
    ensures (q * base + r) / base == q && (q * base + r) % base == r
  {
    var n := q * base + r;
    QuotientIsNat(n, base);
    var q' := n / base;
    if q' > q {
      MulMonotone(q + 1, q', base);
      assert false;
    }
    if q' < q {
      MulMonotone(q' + 1, q, base);
      assert false;
    }
  }

  lemma QuotientIsNat(n: nat, base: nat)
    requires base > 0
    ensures n / base >= 0 && n == n / base * base + n % base && 0 <= n % base < base
  {
  }

  lemma MulMonotone(x: int, y: int, k: int)
    requires x <= y && 0 <= k
    ensures x * k <= y * k
  {
  }

  /** Numeric order of equally long numerals is lexicographic order of their digits. */
  lemma {:induction false} OrderOfValues(a: seq<nat>, b: seq<nat>, base: nat)
    requires |a| == |b| && AreDigits(a, base) && AreDigits(b, base)
    ensures LexLess(a, b) <==> Value(a, base) < Value(b, base)
  {
    if LexLess(a, b) {
      EarlierDigitDecides(a, b, base);
    } else if a == b {
    } else {
      var k := FirstDifference(a, b);
      assert LexLess(b, a);
      EarlierDigitDecides(b, a, base);
    }
  }

  lemma {:induction false} EarlierDigitDecides(a: seq<nat>, b: seq<nat>, base: nat)
    requires |a| == |b| && AreDigits(a, base) && AreDigits(b, base)
    requires LexLess(a, b)
    ensures Value(a, base) < Value(b, base)
    decreases |a|
  {
    var k :| 0 <= k < |a| && k < |b| && a[..k] == b[..k] && a[k] < b[k];
    var last := |a| - 1;
    var p, q := a[..last], b[..last];
    if k < last {
      assert p[..k] == a[..k] && q[..k] == b[..k];
      assert LexLess(p, q);
      EarlierDigitDecides(p, q, base);
    }
    HigherPartDecides(Value(p, base), a[last], Value(q, base), b[last], base);
  }

  lemma HigherPartDecides(x: nat, d: nat, y: nat, e: nat, base: nat)
    requires d < base && (x < y || (x == y && d < e))
    ensures x * base + d < y * base + e
  {
    if x < y {
      MulMonotone(x + 1, y, base);
    }
  }

  lemma {:induction false} FirstDifference(a: seq<nat>, b: seq<nat>) returns (k: nat)
    requires |a| == |b| && a != b
    ensures k < |a| && a[..k] == b[..k] && a[k] != b[k]
  {
    if a[0] != b[0] {
      k := 0;
    } else {
      assert a == [a[0]] + a[1..] && b == [b[0]] + b[1..];
      k := FirstDifference(a[1..], b[1..]);
      assert a[..k + 1] == [a[0]] + a[1..][..k];
      k := k + 1;
    }
  }
}
