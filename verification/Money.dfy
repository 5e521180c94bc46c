/** The monetary type: a fixed-point quantity with a currency. */
module Money {
  import opened Wrappers
  import opened Rounding
  import opened Numerals
  import Decimal

  const SCALE: nat := 4
  const RATE_SCALE: nat := 8
  const RATE_FACTOR := 100000000

  datatype Error = CurrencyMismatch | NoCurrency | BadCurrency | BadAmount | DivideByZero

  /** units is the amount scaled by 10^4. */
  datatype Amount = Amount(units: int, currency: string)

  const ZERO_VALUE := Amount(0, "")

  predicate Valid(a: Amount) {
    a.currency != ""
  }

  predicate IsUpper(c: char) {
    'A' <= c <= 'Z'
  }

  function ValidateCurrency(currency: string): Option<Error> {
    if currency == "" then Some(NoCurrency)
    else if |currency| != 3 || exists k :: 0 <= k < |currency| && !IsUpper(currency[k]) then Some(BadCurrency)
    else None
  }

  // ---- text ----

  function Parse(amount: string, currency: string): Result<Amount, Error> {
    match ValidateCurrency(currency)
    case Some(e) => Err(e)
    case None =>
      match Decimal.ParseUnits(amount, SCALE)
      case None => Err(BadAmount)
      case Some(units) => Ok(Amount(units, currency))
  }

  function ToString(a: Amount): string {
    if a.currency == "" then "" else Decimal.FormatUnits(a.units, SCALE)
  }

  function FromMinorUnits(value: int, minorDigits: int, currency: string): Result<Amount, Error> {
    match ValidateCurrency(currency)
    case Some(e) => Err(e)
    case None =>
      if minorDigits < 0 || minorDigits > SCALE then Err(BadAmount)
      else Ok(Amount(value * Pow(10, SCALE - minorDigits), currency))
  }

  /** The amounts the package can produce: a proper currency, or the zero value. */
  ghost predicate WellFormed(a: Amount) {
    ValidateCurrency(a.currency) == None || a == ZERO_VALUE
  }

  /** A currency is three capital letters. */
  lemma ProperCurrencies(currency: string)
    ensures ValidateCurrency(currency) == None <==>
      |currency| == 3 && forall k :: 0 <= k < 3 ==> 'A' <= currency[k] <= 'Z'
    ensures ValidateCurrency(currency) == Some(NoCurrency) <==> currency == ""
    ensures ValidateCurrency(currency) in {None, Some(NoCurrency), Some(BadCurrency)}
  {
  }

  /** A text is read in units of a ten-thousandth, after its currency was judged. */
  lemma ParsedUnits(s: string, currency: string, negative: bool, whole: string, frac: string)
    requires Decimal.IsDecimalOf(s, negative, whole, frac)
    ensures ValidateCurrency(currency).Some? ==> Parse(s, currency) == Err(ValidateCurrency(currency).value)
    ensures ValidateCurrency(currency) == None && |frac| > 4 ==> Parse(s, currency) == Err(BadAmount)
    ensures Decimal.AllDigits(whole) && Decimal.AllDigits(frac)
    ensures ValidateCurrency(currency) == None && |frac| <= 4 ==>
      var magnitude := Decimal.NatOf(whole) * 10000 + Decimal.NatOf(frac) * Pow(10, 4 - |frac|);
      Parse(s, currency) == Ok(Amount(if negative then -magnitude else magnitude, currency))
  {
    hide Decimal.ParseUnits, Decimal.NatOf, ValidateCurrency;
    Decimal.ParsedPieces(s, negative, whole, frac, 4);
    assert Pow(10, 4) == 10000;
  }

  /** Every other text is refused. */
  lemma ParseRefuses(s: string, currency: string)
    requires ValidateCurrency(currency) == None
    ensures Parse(s, currency).Ok? <==>
      exists negative, whole, frac :: Decimal.IsDecimalOf(s, negative, whole, frac) && |frac| <= 4
    ensures Parse(s, currency).Err? ==> Parse(s, currency) == Err(BadAmount)
  {
    hide Decimal.ParseUnits, Decimal.IsDecimalOf, Decimal.IsDecimal, ValidateCurrency;
    Decimal.DecimalTexts(s);
    if !Decimal.IsDecimal(s) {
      NotDecimal(s);
    } else {
      var negative, whole, frac :| Decimal.IsDecimalOf(s, negative, whole, frac);
      Decimal.ParsedPieces(s, negative, whole, frac, 4);
      forall n, w, f | Decimal.IsDecimalOf(s, n, w, f) ensures |f| <= 4 <==> |frac| <= 4 {
        Decimal.ParsedPieces(s, n, w, f, 4);
      }
    }
  }

  lemma NotDecimal(s: string)
    requires !Decimal.IsDecimal(s)
    ensures Decimal.ParseUnits(s, 4) == None
  {
  }

  /** Text and amount undo each other, for every amount with a proper currency. */
  lemma ParseOfString(a: Amount)
    requires ValidateCurrency(a.currency) == None
    ensures Parse(ToString(a), a.currency) == Ok(a)
  {
    Decimal.ParseOfFormat(a.units, SCALE);
  }

  /** The text is canonical, and canonical text is reproduced. */
  lemma StringIsCanonical(s: string, currency: string)
    requires ValidateCurrency(currency) == None
    ensures Decimal.IsCanonical(s, SCALE)
       <==> Parse(s, currency).Ok? && ToString(Parse(s, currency).value) == s
  {
    hide Decimal.IsCanonical, Decimal.ParseUnits, Decimal.FormatUnits;
    if Decimal.IsCanonical(s, SCALE) {
      Decimal.FormatOfParse(s, SCALE);
    }
    if Parse(s, currency).Ok? {
      Decimal.FormatIsCanonical(Parse(s, currency).value.units, SCALE);
    }
  }

  /** Equal texts mean equal units. */
  lemma StringInjective(a: Amount, b: Amount)
    requires Valid(a) && Valid(b)
    ensures ToString(a) == ToString(b) <==> a.units == b.units
  {
    hide Decimal.ParseUnits, Decimal.FormatUnits;
    Decimal.ParseOfFormat(a.units, SCALE);
    Decimal.ParseOfFormat(b.units, SCALE);
  }

  /** Minor units are refused for an improper currency, and then for an exponent outside 0 to 4. */
  lemma MinorUnitsErrors(value: int, minorDigits: int, currency: string)
    ensures ValidateCurrency(currency).Some? ==>
      FromMinorUnits(value, minorDigits, currency) == Err(ValidateCurrency(currency).value)
    ensures ValidateCurrency(currency) == None ==>
      (FromMinorUnits(value, minorDigits, currency) == Err(BadAmount) <==> minorDigits < 0 || minorDigits > 4)
    ensures ValidateCurrency(currency) == None ==> FromMinorUnits(1299, 2, currency) == Ok(Amount(129900, currency))
  {
    hide ValidateCurrency;
    assert Pow(10, 2) == 100;
  }

  /** An amount in minor units is the decimal text of those units, read as an amount. */
  lemma MinorUnitsText(value: int, minorDigits: int, currency: string)
    requires 0 <= minorDigits <= SCALE
    ensures FromMinorUnits(value, minorDigits, currency) == Parse(Decimal.FormatUnits(value, minorDigits), currency)
  {
    hide Decimal.ParseUnits, Decimal.FormatUnits, Pow;
    Decimal.ParseOfFormat(value, minorDigits);
    Decimal.FinerScale(Decimal.FormatUnits(value, minorDigits), minorDigits, SCALE - minorDigits);
  }

  // ---- arithmetic ----

  function Add(a: Amount, b: Amount): Result<Amount, Error> {
    if a.currency != b.currency then Err(CurrencyMismatch) else Ok(Amount(a.units + b.units, a.currency))
  }

  function Sub(a: Amount, b: Amount): Result<Amount, Error> {
    if a.currency != b.currency then Err(CurrencyMismatch) else Ok(Amount(a.units - b.units, a.currency))
  }

  function Neg(a: Amount): Amount {
    Amount(-a.units, a.currency)
  }

  /** Abs in the source. */
  function Magnitude(a: Amount): Amount {
    Amount(Abs(a.units), a.currency)
  }

  function Mul(a: Amount, factor: int): Amount {
    Amount(a.units * factor, a.currency)
  }

  function Cmp(a: Amount, b: Amount): Result<int, Error> {
    if a.currency != b.currency then Err(CurrencyMismatch)
    else Ok(if a.units < b.units then -1 else if a.units > b.units then 1 else 0)
  }

  function Div(a: Amount, n: int, mode: Rounding): Result<Amount, Error> {
    if n == 0 then Err(DivideByZero) else Ok(Amount(DivRound(a.units, n, mode), a.currency))
  }

  function ParseRate(rate: string): Result<int, Error> {
    match Decimal.ParseUnits(rate, RATE_SCALE)
    case None => Err(BadAmount)
    case Some(units) => Ok(units)
  }

  function MulRate(a: Amount, rate: string, mode: Rounding): Result<Amount, Error> {
    match ParseRate(rate)
    case Err(e) => Err(e)
    case Ok(r) => Ok(Amount(DivRound(a.units * r, RATE_FACTOR, mode), a.currency))
  }

  /** Sums and differences are made in one currency: subtracting undoes adding, and an amount and its negative cancel. */
  lemma SumsAndDifferences(a: Amount, b: Amount)
    ensures a.currency == b.currency ==>
      && Add(a, b).Ok? && Sub(Add(a, b).value, b) == Ok(a) && Add(a, b) == Add(b, a)
      && Sub(a, b) == Add(a, Neg(b)) && Add(a, Neg(a)) == Ok(Amount(0, a.currency)) && Add(a, Amount(0, a.currency)) == Ok(a)
    ensures a.currency != b.currency ==>
      Add(a, b) == Err(CurrencyMismatch) && Sub(a, b) == Err(CurrencyMismatch) && Cmp(a, b) == Err(CurrencyMismatch)
    ensures a.currency == b.currency ==> Add(a, b).value.units == a.units + b.units
  {
  }

  /** Multiplying by a count is adding as often, and by the negative count the negative of that. */
  lemma MulIsRepeatedAdd(a: Amount, factor: nat)
    ensures Total(Amount(0, a.currency), seq(factor, _ => a)) == Ok(Mul(a, factor))
    ensures Mul(a, -(factor as int)) == Neg(Mul(a, factor))
  {
    var copies := seq(factor, _ => a);
    TotalOfParts(Amount(0, a.currency), copies);
    assert UnitsOf(copies) == seq(factor, _ => a.units);
    SumOfCopies(a.units, factor);
  }

  lemma {:induction false} SumOfCopies(x: int, n: nat)
    ensures Sum(seq(n, _ => x)) == x * n
  {
    if n > 0 {
      SumOfCopies(x, n - 1);
      assert seq(n, _ => x)[1..] == seq(n - 1, _ => x);
      assert x * n == x + x * (n - 1);
    }
  }

  /** The magnitude is the amount or its negative, and is not below zero; comparing is the sign of the difference. */
  lemma MagnitudeAndOrder(a: Amount, b: Amount)
    ensures (Magnitude(a) == a || Magnitude(a) == Neg(a)) && Magnitude(a).units >= 0
    ensures a.currency == b.currency ==>
      && Cmp(a, b).Ok? && Cmp(a, b).value in {-1, 0, 1}
      && (Cmp(a, b).value < 0 <==> Sub(a, b).value.units < 0) && (Cmp(a, b).value > 0 <==> Sub(a, b).value.units > 0)
  {
  }

  /** A rate text is read to eight places, and the product is rounded by the mode. */
  lemma MulRateIs(a: Amount, rate: string, mode: Rounding)
    ensures match Decimal.ParseUnits(rate, 8)
            case None => MulRate(a, rate, mode) == Err(BadAmount)
            case Some(r) =>
              && MulRate(a, rate, mode).Ok? && MulRate(a, rate, mode).value.currency == a.currency
              && IsRounded(a.units * r, 100000000, mode, MulRate(a, rate, mode).value.units)
  {
    hide DivRound, IsRounded, Decimal.ParseUnits;
    if Decimal.ParseUnits(rate, 8).Some? {
      DivRoundIsRounded(a.units * Decimal.ParseUnits(rate, 8).value, 100000000, mode);
    }
  }

  /** Rating by the decimal text of p over 10^k is multiplying by p and dividing by 10^k, in every mode. */
  lemma RateIsFraction(a: Amount, p: int, k: nat, mode: Rounding)
    requires k <= 8
    ensures Pow(10, k) > 0
    ensures MulRate(a, Decimal.FormatUnits(p, k), mode) == Div(Mul(a, p), Pow(10, k), mode)
  {
    hide DivRound, Decimal.FormatUnits, Decimal.ParseUnits, Pow;
    var rate := Decimal.FormatUnits(p, k);
    Decimal.ParseOfFormat(p, k);
    Decimal.FinerScale(rate, k, 8 - k);
    Decimal.PowPositive(k);
    Decimal.PowPositive(8 - k);
    PowAdd(10, k, 8 - k);
    TenToTheEighth();
    CommonFactor(a.units * p, Pow(10, k), Pow(10, 8 - k), mode);
    assert a.units * (p * Pow(10, 8 - k)) == a.units * p * Pow(10, 8 - k);
  }

  lemma TenToTheEighth()
    ensures Pow(10, 8) == 100000000
  {
    assert Pow(10, 4) == 10000;
    PowAdd(10, 4, 4);
  }

  /** So a whole rate multiplies. */
  lemma WholeRate(a: Amount, k: int, mode: Rounding)
    ensures MulRate(a, Decimal.FormatUnits(k, 0), mode) == Ok(Mul(a, k))
  {
    hide DivRound, Decimal.FormatUnits;
    RateIsFraction(a, k, 0, mode);
    WholeQuotient(a.units * k, 1, mode);
  }

  lemma WholeQuotient(n: int, d: int, mode: Rounding)
    requires d != 0
    ensures DivRound(n * d, d, mode) == n
  {
    hide DivRound;
    DivRoundCorrect(n * d, d, mode, n);
  }

  /** Dividing rounds the exact quotient by the mode, undoes a multiplication, and fails for zero parts. */
  lemma DivIs(a: Amount, n: int, mode: Rounding)
    ensures n == 0 ==> Div(a, n, mode) == Err(DivideByZero)
    ensures n != 0 ==>
      && Div(a, n, mode).Ok? && Div(a, n, mode).value.currency == a.currency
      && IsRounded(a.units, n, mode, Div(a, n, mode).value.units)
      && Div(Mul(a, n), n, mode) == Ok(a)
  {
    hide DivRound, IsRounded;
    if n != 0 {
      DivRoundIsRounded(a.units, n, mode);
      WholeQuotient(a.units, n, mode);
    }
  }

  // ---- splitting ----

  function Sum(s: seq<int>): int {
    if s == [] then 0 else s[0] + Sum(s[1..])
  }

  /** The units of the parts: the truncated share, and one more step for each of the first parts. */
  function SplitUnits(units: int, n: nat): (parts: seq<int>)
    requires n > 0
    ensures |parts| == n
  {
    var base, remainder := Quo(units, n), Rem(units, n);
    var step := if remainder < 0 then -1 else 1;
    seq(n, i requires 0 <= i < n => if i < Abs(remainder) then base + step else base)
  }

  lemma SplitPart(units: int, n: nat, i: nat)
    requires i < n
    ensures SplitUnits(units, n)[i] ==
      if i >= Abs(Rem(units, n)) then Quo(units, n)
      else if Rem(units, n) < 0 then Quo(units, n) - 1 else Quo(units, n) + 1
  {
    hide Quo, Rem;
  }

  function Split(a: Amount, n: int): Result<seq<Amount>, Error> {
    if n <= 0 then Err(DivideByZero)
    else
      var units := SplitUnits(a.units, n);
      Ok(seq(n, i requires 0 <= i < n => Amount(units[i], a.currency)))
  }

  /** The loop of `Split`, which fills the parts in place. */
  method SplitInPlace(a: Amount, n: int) returns (r: Result<seq<Amount>, Error>)
    ensures r == Split(a, n)
  {
    hide Quo, Rem, SplitUnits;
    if n <= 0 {
      return Err(DivideByZero);
    }
    var parts := new Amount[n](_ => ZERO_VALUE);
    var base, remainder := Quo(a.units, n), Rem(a.units, n);
    var step := 1;
    if remainder < 0 {
      step := -1;
      remainder := -remainder;
    }
    for i := 0 to n
      invariant forall k :: 0 <= k < i ==> parts[k] == Amount(SplitUnits(a.units, n)[k], a.currency)
    {
      var units := base;
      if i < remainder {
        units := units + step;
      }
      SplitPart(a.units, n, i);
      parts[i] := Amount(units, a.currency);
    }
    assert parts[..] == Split(a, n).value;
    r := Ok(parts[..]);
  }

  /** A fair split: it conserves the total, no two parts differ by more than one unit,
      and the parts of larger magnitude come first. */
  ghost predicate IsFairSplit(units: int, parts: seq<int>) {
    && Sum(parts) == units
    && (forall i, j :: 0 <= i < |parts| && 0 <= j < |parts| ==> Abs(parts[i] - parts[j]) <= 1)
    && (forall i, j :: 0 <= i < j < |parts| ==> Abs(parts[i]) >= Abs(parts[j]))
  }

  lemma {:induction false} SumOfTwoLevels(parts: seq<int>, t: nat, high: int, low: int)
    requires t <= |parts|
    requires forall i :: 0 <= i < |parts| ==> parts[i] == if i < t then high else low
    ensures Sum(parts) == t * high + (|parts| - t) * low
    decreases |parts|
  {
    if parts == [] {
    } else if t == 0 {
      SumOfTwoLevels(parts[1..], 0, high, low);
      assert |parts| * low == low + (|parts| - 1) * low;
    } else {
      SumOfTwoLevels(parts[1..], t - 1, high, low);
      assert t * high == high + (t - 1) * high;
    }
  }

  lemma SplitSigns(units: int, n: nat)
    requires n > 0
    ensures units == Quo(units, n) * n + Rem(units, n)
    ensures Abs(Rem(units, n)) < n
    ensures units >= 0 ==> Quo(units, n) >= 0 && Rem(units, n) >= 0
    ensures units <= 0 ==> Quo(units, n) <= 0 && Rem(units, n) <= 0
  {
    QuotientOfMagnitudes(Abs(units), n);
    if units == 0 {
      assert 0 / n == 0;
    }
    assert (-(Abs(units) / n)) * n == -(Abs(units) / n * n);
  }

  lemma LevelTotal(t: int, low: int, step: int, n: int)
    ensures t * (low + step) + (n - t) * low == n * low + t * step
  {
  }

  lemma SplitIsFair(units: int, n: nat)
    requires n > 0
    ensures IsFairSplit(units, SplitUnits(units, n))
  {
    hide Quo, Rem, Sum, SplitUnits;
    SplitSigns(units, n);
    var base, remainder := Quo(units, n), Rem(units, n);
    var step := if remainder < 0 then -1 else 1;
    var t := Abs(remainder);
    forall i | 0 <= i < n ensures SplitUnits(units, n)[i] == if i < t then base + step else base {
      SplitPart(units, n, i);
    }
    assert t * step == remainder;
    SumOfTwoLevels(SplitUnits(units, n), t, base + step, base);
    LevelTotal(t, base, step, n);
  }

  /** A fair split has two levels: a run of one value, then the value one step nearer to zero. */
  lemma {:induction false} FairHasTwoLevels(units: int, parts: seq<int>) returns (t: nat, step: int)
    requires parts != [] && IsFairSplit(units, parts)
    ensures t < |parts| && (step == 1 || step == -1)
    ensures var low := parts[|parts| - 1];
      && (forall i :: 0 <= i < |parts| ==> parts[i] == if i < t then low + step else low)
      && (t > 0 ==> if step == 1 then low >= 0 else low <= 0)
  {
    var low := parts[|parts| - 1];
    step := if parts[0] > low then 1 else -1;
    t := 0;
    while parts[t] != low
      invariant t < |parts|
      invariant forall i :: 0 <= i < t ==> parts[i] == low + step
      invariant t > 0 ==> if step == 1 then low >= 0 else low <= 0
      decreases |parts| - t
    {
      assert Abs(parts[t] - parts[0]) <= 1 && Abs(parts[t] - low) <= 1;
      t := t + 1;
    }
  }

  /** Fairness determines the split. */
  lemma FairSplitIsUnique(units: int, parts: seq<int>)
    requires parts != []
    ensures IsFairSplit(units, parts) <==> parts == SplitUnits(units, |parts|)
  {
    hide Quo, Rem, SplitUnits, IsFairSplit;
    SplitIsFair(units, |parts|);
    if IsFairSplit(units, parts) {
      var n := |parts|;
      var low := parts[n - 1];
      var t, step := FairHasTwoLevels(units, parts);
      FairTotal(units, parts);
      SumOfTwoLevels(parts, t, low + step, low);
      LevelTotal(t, low, step, n);
      LevelsAreTruncatedDivision(units, n, low, t, step);
      assert Abs(t * step) == t && (t > 0 ==> (t * step < 0 <==> step == -1));
      forall i | 0 <= i < n ensures parts[i] == SplitUnits(units, n)[i] {
        SplitPart(units, n, i);
      }
    }
  }

  /** Each part is a whole number of minor units, f internal units each, exactly when the truncated part is and nothing
      remains: the remainder is handed out in internal units. */
  lemma WholeMinorUnitsIff(units: int, n: nat, f: nat)
    requires n > 0 && f > 1
    ensures (forall i :: 0 <= i < n ==> SplitUnits(units, n)[i] % f == 0)
       <==> Rem(units, n) == 0 && Quo(units, n) % f == 0
  {
    hide Quo, Rem, SplitUnits;
    SplitSigns(units, n);
    var parts, q, r := SplitUnits(units, n), Quo(units, n), Rem(units, n);
    forall i | 0 <= i < n ensures parts[i] == if i >= Abs(r) then q else if r < 0 then q - 1 else q + 1 {
      SplitPart(units, n, i);
    }
    if forall i :: 0 <= i < n ==> parts[i] % f == 0 {
      assert parts[n - 1] % f == 0 && parts[0] % f == 0;
      MultiplesAreNoNeighbours(parts[0], parts[n - 1], f);
    }
  }

  lemma MultiplesAreNoNeighbours(x: int, y: int, f: int)
    requires f > 1 && x % f == 0 && y % f == 0
    ensures Abs(x - y) != 1
  {
    var a, b := x / f, y / f;
    assert x == a * f && y == b * f && (a - b) * f == a * f - b * f;
    Multiple(a - b, f);
  }

  /** 10.00 in three: no part is a whole number of cents. */
  lemma SplitOfTen()
    ensures SplitUnits(100000, 3) == [33334, 33333, 33333]
    ensures forall i :: 0 <= i < 3 ==> SplitUnits(100000, 3)[i] % 100 != 0
  {
    SplitPart(100000, 3, 0);
    SplitPart(100000, 3, 1);
    SplitPart(100000, 3, 2);
    assert Quo(100000, 3) == 33333 && Rem(100000, 3) == 1;
  }

  lemma FairTotal(units: int, parts: seq<int>)
    requires IsFairSplit(units, parts)
    ensures Sum(parts) == units
  {
  }

  lemma LevelsAreTruncatedDivision(units: int, n: nat, low: int, t: nat, step: int)
    requires t < n && (step == 1 || step == -1) && units == n * low + t * step
    requires t > 0 ==> if step == 1 then low >= 0 else low <= 0
    ensures Quo(units, n) == low && Rem(units, n) == t * step
  {
    hide Quo, Rem, DivRound, IsNear;
    SignedMultiple(low, n);
    var offset: int := if step == 1 then t else -(t as int);
    assert t * step == offset;
    OffsetIsNear(units, low * n, n, low, offset);
    DivRoundCorrect(units, n, DOWN, low);
    DownIsQuo(units, n);
    RemDefinition(units, n);
  }

  lemma SignedMultiple(k: int, n: int)
    requires n >= 0
    ensures k * n == n * k && (k == 0 ==> k * n == 0)
    ensures (k > 0 ==> k * n >= n) && (k < 0 ==> k * n <= -n)
  {
  }

  lemma OffsetIsNear(units: int, x: int, n: int, low: int, offset: int)
    requires units == x + offset && Abs(offset) < n && (low == 0 ==> x == 0)
    requires (low > 0 ==> x >= n) && (low < 0 ==> x <= -n)
    requires (offset > 0 ==> low >= 0) && (offset < 0 ==> low <= 0)
    ensures IsNear(units, n, DOWN, low, x)
  {
  }

  lemma DownIsQuo(n: int, d: int)
    requires d != 0
    ensures DivRound(n, d, DOWN) == Quo(n, d)
  {
  }

  lemma RemDefinition(n: int, d: int)
    requires d != 0
    ensures Rem(n, d) == n - Quo(n, d) * d
  {
  }

  /** Adding the amounts in order, as a caller would. */
  function Total(start: Amount, parts: seq<Amount>): Result<Amount, Error>
    decreases parts
  {
    if parts == [] then Ok(start)
    else match Add(start, parts[0])
      case Err(e) => Err(e)
      case Ok(sum) => Total(sum, parts[1..])
  }

  function UnitsOf(parts: seq<Amount>): (units: seq<int>)
    ensures |units| == |parts|
  {
    seq(|parts|, i requires 0 <= i < |parts| => parts[i].units)
  }

  lemma {:induction false} TotalOfParts(start: Amount, parts: seq<Amount>)
    requires forall i :: 0 <= i < |parts| ==> parts[i].currency == start.currency
    ensures Total(start, parts) == Ok(Amount(start.units + Sum(UnitsOf(parts)), start.currency))
    decreases parts
  {
    if parts != [] {
      TotalOfParts(Add(start, parts[0]).value, parts[1..]);
      assert UnitsOf(parts)[1..] == UnitsOf(parts[1..]);
    }
  }

  /** The parts of a split add back to the amount, and no other fair list of parts does. */
  lemma SplitConserves(a: Amount, n: int)
    requires n > 0
    ensures Split(a, n).Ok? && |Split(a, n).value| == n
    ensures Total(Amount(0, a.currency), Split(a, n).value) == Ok(a)
    ensures IsFairSplit(a.units, UnitsOf(Split(a, n).value))
  {
    hide SplitUnits;
    var parts := Split(a, n).value;
    assert UnitsOf(parts) == SplitUnits(a.units, n);
    SplitIsFair(a.units, n);
    TotalOfParts(Amount(0, a.currency), parts);
  }

  // ---- rate drift ----

  function RoundedShares(parts: seq<int>, rate: int, mode: Rounding): (shares: seq<int>)
    ensures |shares| == |parts|
  {
    seq(|parts|, i requires 0 <= i < |parts| => DivRound(parts[i] * rate, RATE_FACTOR, mode))
  }

  lemma HalfUnitError(units: int, rate: int, mode: Rounding)
    requires mode != DOWN
    ensures 2 * Abs(RATE_FACTOR * DivRound(units * rate, RATE_FACTOR, mode) - units * rate) <= RATE_FACTOR
  {
    hide DivRound;
    DivRoundIsRounded(units * rate, RATE_FACTOR, mode);
  }

  lemma {:induction false} SharesError(parts: seq<int>, rate: int, mode: Rounding)
    requires mode != DOWN
    ensures 2 * Abs(RATE_FACTOR * Sum(RoundedShares(parts, rate, mode)) - Sum(parts) * rate) <= |parts| * RATE_FACTOR
  {
    hide DivRound;
    if parts != [] {
      var first := DivRound(parts[0] * rate, RATE_FACTOR, mode);
      var rest := RoundedShares(parts[1..], rate, mode);
      HalfUnitError(parts[0], rate, mode);
      SharesError(parts[1..], rate, mode);
      assert RoundedShares(parts, rate, mode) == [first] + rest;
      assert ([first] + rest)[1..] == rest;
      RatedSum(parts[0], Sum(parts[1..]), rate);
    }
  }

  lemma RatedSum(x: int, y: int, rate: int)
    ensures (x + y) * rate == x * rate + y * rate
  {
  }

  /** The result of applying MulRate to each part. */
  function MulRateEach(parts: seq<Amount>, rate: string, mode: Rounding): (r: seq<Amount>)
    requires ParseRate(rate).Ok?
    ensures |r| == |parts|
  {
    seq(|parts|, i requires 0 <= i < |parts| => MulRate(parts[i], rate, mode).value)
  }

  /** Applying a rate to the n parts of a split and adding up drifts from applying it to the
      whole by at most (n + 1) / 2 internal units, in every half mode. */
  lemma RateDrift(a: Amount, n: int, rate: string, mode: Rounding)
    requires n > 0 && mode != DOWN && ParseRate(rate).Ok?
    ensures var total := Total(Amount(0, a.currency), MulRateEach(Split(a, n).value, rate, mode));
      && total.Ok? && MulRate(a, rate, mode).Ok?
      && 2 * Abs(total.value.units - MulRate(a, rate, mode).value.units) <= n + 1
  {
    hide DivRound, SplitUnits, ParseRate;
    var parts, r := Split(a, n).value, ParseRate(rate).value;
    var units := SplitUnits(a.units, n);
    SplitIsFair(a.units, n);
    var shares := MulRateEach(parts, rate, mode);
    TotalOfParts(Amount(0, a.currency), shares);
    assert UnitsOf(shares) == RoundedShares(units, r, mode);
    SharesError(units, r, mode);
    HalfUnitError(a.units, r, mode);
  }

  // ---- truncated shares ----

  ghost predicate SameSign(s: seq<int>) {
    (forall i :: 0 <= i < |s| ==> s[i] >= 0) || (forall i :: 0 <= i < |s| ==> s[i] <= 0)
  }

  function Scaled(parts: seq<int>, rate: int): (products: seq<int>)
    ensures |products| == |parts|
  {
    seq(|parts|, i requires 0 <= i < |parts| => parts[i] * rate)
  }

  lemma {:induction false} ScaledSum(parts: seq<int>, rate: int)
    ensures Sum(Scaled(parts, rate)) == Sum(parts) * rate
  {
    if parts != [] {
      ScaledSum(parts[1..], rate);
      assert Scaled(parts, rate)[1..] == Scaled(parts[1..], rate);
      assert Sum(parts) * rate == parts[0] * rate + Sum(parts[1..]) * rate;
    }
  }

  function Truncated(products: seq<int>): (shares: seq<int>)
    ensures |shares| == |products|
  {
    seq(|products|, i requires 0 <= i < |products| => DivRound(products[i], RATE_FACTOR, DOWN))
  }

  lemma TruncationError(x: int)
    ensures var q := DivRound(x, RATE_FACTOR, DOWN) * RATE_FACTOR;
      Abs(x - q) < RATE_FACTOR && (x >= 0 ==> 0 <= q <= x) && (x <= 0 ==> x <= q <= 0)
  {
    hide DivRound;
    DivRoundIsRounded(x, RATE_FACTOR, DOWN);
    SignOfTruncated(x, RATE_FACTOR, DivRound(x, RATE_FACTOR, DOWN));
  }

  lemma {:induction false} TruncatedSum(products: seq<int>)
    requires SameSign(products)
    ensures var total, q := Sum(products), Sum(Truncated(products)) * RATE_FACTOR;
      && Abs(total - q) <= |products| * (RATE_FACTOR - 1)
      && ((forall i :: 0 <= i < |products| ==> products[i] >= 0) ==> 0 <= q <= total)
      && ((forall i :: 0 <= i < |products| ==> products[i] <= 0) ==> total <= q <= 0)
  {
    hide DivRound;
    if products != [] {
      TruncationError(products[0]);
      assert forall i :: 0 <= i < |products| - 1 ==> products[1..][i] == products[i + 1];
      TruncatedSum(products[1..]);
      assert Truncated(products)[1..] == Truncated(products[1..]);
    }
  }

  lemma SplitKeepsSign(units: int, n: nat)
    requires n > 0
    ensures units >= 0 ==> forall i :: 0 <= i < n ==> SplitUnits(units, n)[i] >= 0
    ensures units <= 0 ==> forall i :: 0 <= i < n ==> SplitUnits(units, n)[i] <= 0
  {
    hide Quo, Rem;
    SplitSigns(units, n);
  }

  lemma ScaledSign(units: int, n: nat, rate: int)
    requires n > 0
    ensures SameSign(Scaled(SplitUnits(units, n), rate))
  {
    hide SplitUnits;
    SplitKeepsSign(units, n);
    var products := Scaled(SplitUnits(units, n), rate);
    if (units >= 0) == (rate >= 0) {
      forall i | 0 <= i < n ensures products[i] >= 0 {
        SignOfProduct(SplitUnits(units, n)[i], rate);
      }
    } else {
      forall i | 0 <= i < n ensures products[i] <= 0 {
        SignOfProduct(SplitUnits(units, n)[i], rate);
      }
    }
  }

  lemma SignOfProduct(x: int, y: int)
    ensures (x >= 0 && y >= 0) || (x <= 0 && y <= 0) ==> x * y >= 0
    ensures (x >= 0 && y <= 0) || (x <= 0 && y >= 0) ==> x * y <= 0
  {
  }

  /** Truncating each part never collects more than truncating the whole, and falls short of it
      by fewer internal units than there are parts. */
  lemma DownNeverExceeds(a: Amount, n: int, rate: string)
    requires n > 0 && ParseRate(rate).Ok?
    ensures var total := Total(Amount(0, a.currency), MulRateEach(Split(a, n).value, rate, DOWN));
      && total.Ok? && MulRate(a, rate, DOWN).Ok?
      && Abs(total.value.units) <= Abs(MulRate(a, rate, DOWN).value.units) < Abs(total.value.units) + n
  {
    hide DivRound, SplitUnits, ParseRate;
    var parts, r := Split(a, n).value, ParseRate(rate).value;
    var units := SplitUnits(a.units, n);
    var shares := MulRateEach(parts, rate, DOWN);
    var products := Scaled(units, r);
    SplitIsFair(a.units, n);
    TotalOfParts(Amount(0, a.currency), shares);
    assert UnitsOf(shares) == Truncated(products);
    ScaledSum(units, r);
    ScaledSign(a.units, n, r);
    TruncatedSum(products);
    TruncationError(a.units * r);
  }

  // ---- what every run of operations keeps ----

  datatype Step =
    | Plus(b: Amount) | Minus(b: Amount) | Times(factor: int) | Negate | TakeMagnitude
    | DivideBy(n: int, mode: Rounding) | TimesRate(rate: string, mode: Rounding) | PartOf(n: int, i: nat)

  function Apply(a: Amount, step: Step): Result<Amount, Error> {
    match step
    case Plus(b) => Add(a, b)
    case Minus(b) => Sub(a, b)
    case Times(factor) => Ok(Mul(a, factor))
    case Negate => Ok(Neg(a))
    case TakeMagnitude => Ok(Magnitude(a))
    case DivideBy(n, mode) => Div(a, n, mode)
    case TimesRate(rate, mode) => MulRate(a, rate, mode)
    case PartOf(n, i) =>
      match Split(a, n)
      case Err(e) => Err(e)
      case Ok(parts) => Ok(parts[i % |parts|])
  }

  function Run(a: Amount, steps: seq<Step>): Result<Amount, Error>
    decreases steps
  {
    if steps == [] then Ok(a)
    else match Apply(a, steps[0])
      case Err(e) => Err(e)
      case Ok(b) => Run(b, steps[1..])
  }

  /** Steps that undo each other: a sum and its difference, a product and its quotient, two negations; and a part of one
      is the whole. */
  lemma StepsUndo(a: Amount, b: Amount, n: int, mode: Rounding)
    ensures a.currency == b.currency ==> Run(a, [Plus(b), Minus(b)]) == Ok(a) && Run(a, [Minus(b), Plus(b)]) == Ok(a)
    ensures a.currency != b.currency ==> Run(a, [Plus(b)]) == Err(CurrencyMismatch) == Run(a, [Minus(b)])
    ensures n != 0 ==> Run(a, [Times(n), DivideBy(n, mode)]) == Ok(a)
    ensures Run(a, [Negate, Negate]) == Ok(a) && Run(a, [Negate, TakeMagnitude]) == Run(a, [TakeMagnitude])
    ensures Run(a, [TimesRate(Decimal.FormatUnits(n, 0), mode)]) == Run(a, [Times(n)])
  {
    hide Run, Div, MulRate, Decimal.FormatUnits;
    DivIs(a, n, mode);
    WholeRate(a, n, mode);
    TwoSteps(a, Plus(b), Minus(b));
    TwoSteps(a, Minus(b), Plus(b));
    TwoSteps(a, Times(n), DivideBy(n, mode));
    TwoSteps(a, Negate, Negate);
    TwoSteps(a, Negate, TakeMagnitude);
    OneStep(a, Plus(b));
    OneStep(a, Minus(b));
    OneStep(a, TakeMagnitude);
    OneStep(a, TimesRate(Decimal.FormatUnits(n, 0), mode));
    OneStep(a, Times(n));
  }

  lemma PartOfOne(a: Amount)
    ensures Run(a, [PartOf(1, 0)]) == Ok(a)
    ensures Run(a, [PartOf(0, 0)]) == Err(DivideByZero)
  {
    hide Run, SplitUnits;
    OneStep(a, PartOf(0, 0));
    OneStep(a, PartOf(1, 0));
    SplitPart(a.units, 1, 0);
    assert Quo(a.units, 1) == a.units && Rem(a.units, 1) == 0;
  }

  lemma OneStep(a: Amount, step: Step)
    ensures Run(a, [step]) == Apply(a, step)
  {
    hide Apply;
    assert [step][1..] == [];
  }

  lemma TwoSteps(a: Amount, first: Step, second: Step)
    ensures Apply(a, first).Ok? ==> Run(a, [first, second]) == Apply(Apply(a, first).value, second)
  {
    hide Apply;
    assert [first, second][1..] == [second];
    if Apply(a, first).Ok? {
      OneStep(Apply(a, first).value, second);
    }
  }

  lemma StepKeepsCurrency(a: Amount, step: Step)
    ensures Apply(a, step).Ok? ==> Apply(a, step).value.currency == a.currency
  {
    hide DivRound, ParseRate, SplitUnits;
  }

  lemma StepKeepsZero(step: Step)
    requires (step.Plus? || step.Minus?) ==> WellFormed(step.b)
    requires Apply(ZERO_VALUE, step).Ok?
    ensures Apply(ZERO_VALUE, step) == Ok(ZERO_VALUE)
  {
    hide DivRound, ParseRate, SplitUnits;
    match step
    case DivideBy(n, mode) => ZeroRounds(n, mode);
    case TimesRate(_, mode) => ZeroRounds(RATE_FACTOR, mode);
    case PartOf(n, i) => SplitKeepsSign(0, n);
    case _ =>
  }

  /** Rating by a rate that is not negative, and dividing by a positive count, never reverse the order of two amounts. */
  lemma RoundingKeepsOrder(a: Amount, b: Amount, rate: string, n: int, mode: Rounding)
    requires Cmp(a, b).Ok? && Cmp(a, b).value <= 0
    ensures ParseRate(rate).Ok? && ParseRate(rate).value >= 0 ==>
      Cmp(MulRate(a, rate, mode).value, MulRate(b, rate, mode).value).value <= 0
    ensures n > 0 ==> Cmp(Div(a, n, mode).value, Div(b, n, mode).value).value <= 0
  {
    hide DivRound, ParseRate;
    if ParseRate(rate).Ok? && ParseRate(rate).value >= 0 {
      MulMonotone(a.units, b.units, ParseRate(rate).value);
      Monotone(a.units * ParseRate(rate).value, b.units * ParseRate(rate).value, RATE_FACTOR, mode);
    }
    if n > 0 {
      Monotone(a.units, b.units, n, mode);
    }
  }

  /** No run of operations leaves the well-formed amounts or changes the currency. */
  lemma {:induction false} RunKeepsWellFormed(a: Amount, steps: seq<Step>)
    requires WellFormed(a)
    requires forall k :: 0 <= k < |steps| && (steps[k].Plus? || steps[k].Minus?) ==> WellFormed(steps[k].b)
    ensures Run(a, steps).Ok? ==> WellFormed(Run(a, steps).value) && Run(a, steps).value.currency == a.currency
    decreases steps
  {
    hide Apply, ValidateCurrency;
    if steps != [] && Apply(a, steps[0]).Ok? {
      StepKeepsCurrency(a, steps[0]);
      if a == ZERO_VALUE {
        StepKeepsZero(steps[0]);
      }
      RunKeepsWellFormed(Apply(a, steps[0]).value, steps[1..]);
    }
  }
}
