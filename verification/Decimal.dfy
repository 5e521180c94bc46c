/** Decimal text and the fixed-point integers it denotes. */
module Decimal {
  import opened Wrappers
  import opened Numerals
  import opened Text

  predicate AllDigits(s: string) {
    forall k :: 0 <= k < |s| ==> IsDigit(s[k])
  }

  function DigitValue(c: char): nat
    requires IsDigit(c)
  {
    c as nat - '0' as nat
  }

  function DigitChar(d: nat): (c: char)
    requires d < 10
    ensures IsDigit(c) && DigitValue(c) == d
  {
    ('0' as nat + d) as char
  }

  /** The number a digit string denotes in base ten. */
  function NatOf(s: string): nat
    requires AllDigits(s)
  {
    if s == [] then 0 else NatOf(s[..|s| - 1]) * 10 + DigitValue(s[|s| - 1])
  }

  /** The digits of n with no leading zero. */
  function NatText(n: nat): (s: string)
    ensures |s| > 0 && AllDigits(s)
  {
    if n < 10 then [DigitChar(n)] else NatText(n / 10) + [DigitChar(n % 10)]
  }

  /** The last k digits of n, padded with zeros. */
  function PadText(n: nat, k: nat): (s: string)
    ensures |s| == k && AllDigits(s)
    decreases k
  {
    if k == 0 then [] else PadText(n / 10, k - 1) + [DigitChar(n % 10)]
  }

  function Zeros(k: nat): (s: string)
    ensures |s| == k && AllDigits(s)
  {
    seq(k, _ => '0')
  }

  function TrimZeros(s: string): (t: string)
    ensures |t| <= |s| && t == s[..|t|]
    ensures t != [] ==> t[|t| - 1] != '0'
    ensures forall k :: |t| <= k < |s| ==> s[k] == '0'
  {
    if s == [] || s[|s| - 1] != '0' then s else TrimZeros(s[..|s| - 1])
  }

  // ---- the decimal pattern -?[0-9]+(\.[0-9]+)? ----

  predicate IsNegative(s: string) {
    s != [] && s[0] == '-'
  }

  function Unsigned(s: string): string {
    if IsNegative(s) then s[1..] else s
  }

  function Whole(s: string): string {
    Unsigned(s)[..IndexIn(Unsigned(s), '.')]
  }

  /** The digits after the point; empty when there is no point. */
  function Frac(s: string): string {
    var point := IndexIn(Unsigned(s), '.');
    if point < |Unsigned(s)| then Unsigned(s)[point + 1..] else []
  }

  predicate HasPoint(s: string) {
    '.' in Unsigned(s)
  }

  predicate IsDecimal(s: string) {
    && Whole(s) != [] && AllDigits(Whole(s))
    && AllDigits(Frac(s))
    && (HasPoint(s) ==> Frac(s) != [])
  }

  /** The digits of the text with its fraction padded to `scale` places. */
  function ScaledDigits(s: string, scale: nat): (digits: string)
    requires IsDecimal(s) && |Frac(s)| <= scale
    ensures AllDigits(digits)
  {
    Whole(s) + (Frac(s) + Zeros(scale - |Frac(s)|))
  }

  /** The text as a multiple of 10^-scale, when it needs no more than `scale` places. */
  function ParseUnits(s: string, scale: nat): Option<int> {
    if !IsDecimal(s) || |Frac(s)| > scale then None
    else
      var units: int := NatOf(ScaledDigits(s, scale));
      Some(if IsNegative(s) then -units else units)
  }

  function PointAnd(frac: string): string {
    if frac != "" then "." + frac else ""
  }

  /** The shortest text of a multiple of 10^-scale. */
  function FormatUnits(units: int, scale: nat): string {
    var magnitude := if units < 0 then -units else units;
    var factor := Pow(10, scale);
    PowPositive(scale);
    QuotientIsNat(magnitude, factor);
    var frac := TrimZeros(PadText(magnitude % factor, scale));
    (if units < 0 then "-" else "") + NatText(magnitude / factor) + PointAnd(frac)
  }

  lemma {:induction false} PowPositive(k: nat)
    ensures Pow(10, k) > 0
  {
    if k > 0 {
      PowPositive(k - 1);
    }
  }

  // ---- digit strings ----

  lemma {:induction false} NatOfConcat(a: string, b: string)
    requires AllDigits(a) && AllDigits(b)
    ensures AllDigits(a + b) && NatOf(a + b) == NatOf(a) * Pow(10, |b|) + NatOf(b)
  {
    if b == [] {
      assert a + b == a;
    } else {
      var p := b[..|b| - 1];
      NatOfConcat(a, p);
      assert (a + b)[..|a + b| - 1] == a + p;
      TimesTen(NatOf(a), Pow(10, |p|));
    }
  }

  lemma TimesTen(x: nat, p: nat)
    ensures x * p * 10 == x * (10 * p)
  {
  }

  lemma {:induction false} NatOfNatText(n: nat)
    ensures NatOf(NatText(n)) == n
  {
    if n >= 10 {
      NatOfNatText(n / 10);
      assert NatText(n)[..|NatText(n)| - 1] == NatText(n / 10);
    } else {
      assert NatText(n)[..0] == [];
    }
  }

  lemma {:induction false} NatOfPadText(n: nat, k: nat)
    requires n < Pow(10, k)
    ensures NatOf(PadText(n, k)) == n
    decreases k
  {
    if k > 0 {
      NatOfPadText(n / 10, k - 1);
      assert PadText(n, k)[..k - 1] == PadText(n / 10, k - 1);
    }
  }

  lemma {:induction false} PadTextOfNatOf(s: string)
    requires AllDigits(s)
    ensures PadText(NatOf(s), |s|) == s && NatOf(s) < Pow(10, |s|)
  {
    if s != [] {
      var p, c := s[..|s| - 1], s[|s| - 1];
      PadTextOfNatOf(p);
      LastDigit(NatOf(p), DigitValue(c));
      assert Pow(10, |s|) == 10 * Pow(10, |p|);
      assert PadText(NatOf(s), |s|) == PadText(NatOf(p), |p|) + [c];
      assert s == p + [c];
    }
  }

  lemma LastDigit(x: nat, d: nat)
    requires d < 10
    ensures (x * 10 + d) / 10 == x && (x * 10 + d) % 10 == d
  {
  }

  lemma {:induction false} NatTextOfNatOf(s: string)
    requires AllDigits(s) && s != [] && (|s| > 1 ==> s[0] != '0')
    ensures NatText(NatOf(s)) == s
    ensures |s| > 1 ==> NatOf(s) >= 10
    ensures s[0] != '0' ==> NatOf(s) > 0
  {
    var p, c := s[..|s| - 1], s[|s| - 1];
    LastDigit(NatOf(p), DigitValue(c));
    assert s == p + [c];
    if |s| > 1 {
      NatTextOfNatOf(p);
      assert NatText(NatOf(s)) == NatText(NatOf(p)) + [c];
    } else {
      assert p == [] && NatOf(p) == 0;
    }
  }

  lemma {:induction false} NatTextHasNoLeadingZero(n: nat)
    ensures |NatText(n)| > 1 ==> NatText(n)[0] != '0'
    ensures n > 0 ==> NatText(n)[0] != '0'
  {
    if n >= 10 {
      NatTextHasNoLeadingZero(n / 10);
    }
  }

  // ---- the pieces of a text ----

  function Sign(negative: bool): string {
    if negative then "-" else ""
  }

  /** A text put together from its sign and digits comes apart into them. */
  lemma Pieces(negative: bool, whole: string, frac: string)
    requires whole != [] && AllDigits(whole) && AllDigits(frac)
    ensures var s := Sign(negative) + whole + PointAnd(frac);
      && IsDecimal(s) && IsNegative(s) == negative && Whole(s) == whole && Frac(s) == frac
      && (HasPoint(s) <==> frac != "")
  {
    var tail := PointAnd(frac);
    var s := Sign(negative) + whole + tail;
    assert IsDigit(whole[0]) && s[0] == if negative then '-' else whole[0];
    var body := Unsigned(s);
    assert body == whole + tail;
    var point := IndexIn(body, '.');
    assert point >= |whole| || IsDigit(body[point]);
    if frac != "" {
      assert body[|whole|] == '.';
      assert point == |whole|;
      assert body[point + 1..] == frac;
    } else {
      assert point == |body|;
    }
    assert body[..|whole|] == whole;
  }

  /** A decimal text is its sign, its whole digits and its fraction. */
  lemma TextFromPieces(s: string)
    requires IsDecimal(s)
    ensures s == Sign(IsNegative(s)) + Whole(s) + PointAnd(Frac(s))
  {
    hide AllDigits, IsDecimal, IndexIn, Unsigned, Sign, Whole, Frac, PointAnd;
    SignAndRest(s);
    WholeAndRest(s);
    Reassociate(Sign(IsNegative(s)), Whole(s), PointAnd(Frac(s)));
  }

  lemma WholeAndRest(s: string)
    requires IsDecimal(s)
    ensures Unsigned(s) == Whole(s) + PointAnd(Frac(s))
  {
    DecimalPieces(s);
    hide AllDigits, IsDecimal, IndexIn, Unsigned, Sign;
    var body := Unsigned(s);
    var point := IndexIn(body, '.');
    if point < |body| {
      assert HasPoint(s);
      CutAt(body, point);
    } else {
      assert body[..point] + "" == body;
    }
  }

  lemma CutAt(s: string, i: nat)
    requires i < |s|
    ensures s == s[..i] + ([s[i]] + s[i + 1..])
  {
  }

  lemma SignAndRest(s: string)
    ensures s == Sign(IsNegative(s)) + Unsigned(s)
  {
  }

  lemma Reassociate(a: string, b: string, c: string)
    ensures a + b + c == a + (b + c)
  {
  }

  /** The decimal texts are an optional minus sign, digits, and at most a point with more digits. */
  lemma DecimalTexts(s: string)
    ensures IsDecimal(s) <==> exists negative, whole, frac :: IsDecimalOf(s, negative, whole, frac)
  {
    if IsDecimal(s) {
      DecimalPieces(s);
      TextFromPieces(s);
      assert IsDecimalOf(s, IsNegative(s), Whole(s), Frac(s));
    }
    if negative, whole, frac :| IsDecimalOf(s, negative, whole, frac) {
      Pieces(negative, whole, frac);
    }
  }

  predicate IsDecimalOf(s: string, negative: bool, whole: string, frac: string) {
    && whole != "" && (forall k :: 0 <= k < |whole| ==> '0' <= whole[k] <= '9')
    && (forall k :: 0 <= k < |frac| ==> '0' <= frac[k] <= '9')
    && s == (if negative then "-" else "") + whole + if frac == "" then "" else "." + frac
  }

  /** What a decimal text denotes, whether or not it is canonical: its digits left and right of the point. */
  lemma ParsedPieces(s: string, negative: bool, whole: string, frac: string, scale: nat)
    requires IsDecimalOf(s, negative, whole, frac)
    ensures ParseUnits(s, scale).Some? <==> |frac| <= scale
    ensures AllDigits(whole) && AllDigits(frac)
    ensures |frac| <= scale ==>
      var magnitude := NatOf(whole) * Pow(10, scale) + NatOf(frac) * Pow(10, scale - |frac|);
      ParseUnits(s, scale) == Some(if negative then -magnitude else magnitude)
  {
    hide IsDecimal, IsNegative, Whole, Frac, HasPoint, Unsigned, NatOf, Pow;
    Pieces(negative, whole, frac);
    if |frac| <= scale {
      var zeros := Zeros(scale - |frac|);
      NatOfConcat(whole, frac + zeros);
      NatOfConcat(frac, zeros);
      NatOfPadZero(scale - |frac|);
    }
  }

  /** The digits by value, and a digit string by its last digit. */
  lemma DigitValues(d: nat, s: string)
    requires d < 10 && AllDigits(s)
    ensures IsDigit("0123456789"[d]) && DigitValue("0123456789"[d]) == d
    ensures AllDigits(s + ["0123456789"[d]]) && NatOf(s + ["0123456789"[d]]) == 10 * NatOf(s) + d
    ensures NatOf("") == 0
  {
    var t := s + ["0123456789"[d]];
    assert t[..|t| - 1] == s;
  }

  // ---- round trips ----

  lemma {:induction false} TrimOfPadded(frac: string, k: nat)
    requires frac != "" ==> frac[|frac| - 1] != '0'
    ensures TrimZeros(frac + Zeros(k)) == frac
    decreases k
  {
    if k == 0 {
      assert frac + Zeros(k) == frac;
    } else {
      var padded := frac + Zeros(k);
      assert padded[|padded| - 1] == '0' && padded[..|padded| - 1] == frac + Zeros(k - 1);
      TrimOfPadded(frac, k - 1);
    }
  }

  lemma {:induction false} PadTextOfZero(k: nat)
    ensures PadText(0, k) == Zeros(k)
    decreases k
  {
    if k > 0 {
      PadTextOfZero(k - 1);
    }
  }

  /** The number that the whole and the padded fraction digits denote together. */
  lemma JoinedDigits(whole: string, padded: string)
    requires AllDigits(whole) && AllDigits(padded)
    ensures AllDigits(whole + padded)
    ensures var n, factor := NatOf(whole + padded), Pow(10, |padded|);
      factor > 0 && n / factor == NatOf(whole) && n % factor == NatOf(padded)
  {
    NatOfConcat(whole, padded);
    PadTextOfNatOf(padded);
    QuotientAndRemainder(NatOf(whole), NatOf(padded), Pow(10, |padded|));
  }

  /** Reading the text of an amount gives the amount. */
  lemma ParseOfFormat(units: int, scale: nat)
    ensures ParseUnits(FormatUnits(units, scale), scale) == Some(units)
  {
    hide IsDecimal, IsNegative, Whole, Frac, HasPoint, Unsigned, NatText, PadText, TrimZeros, NatOf, Pow;
    var m := if units < 0 then -units else units;
    var factor := Pow(10, scale);
    PowPositive(scale);
    QuotientIsNat(m, factor);
    var whole, padded := NatText(m / factor), PadText(m % factor, scale);
    var frac := TrimZeros(padded);
    Pieces(units < 0, whole, frac);
    assert frac + Zeros(scale - |frac|) == padded;
    NatOfConcat(whole, padded);
    NatOfNatText(m / factor);
    NatOfPadText(m % factor, scale);
  }

  /** The canonical texts: no superfluous zero on either side, and no negative zero. */
  ghost predicate IsCanonical(s: string, scale: nat) {
    && IsDecimal(s) && |Frac(s)| <= scale
    && (Frac(s) != "" ==> Frac(s)[|Frac(s)| - 1] != '0')
    && (|Whole(s)| > 1 ==> Whole(s)[0] != '0')
    && s != "-0"
  }

  lemma FormatIsCanonical(units: int, scale: nat)
    ensures IsCanonical(FormatUnits(units, scale), scale)
  {
    hide IsDecimal, IsNegative, Whole, Frac, HasPoint, Unsigned, NatText, PadText, TrimZeros, NatOf, Pow;
    var m := if units < 0 then -units else units;
    var factor := Pow(10, scale);
    PowPositive(scale);
    QuotientIsNat(m, factor);
    var whole := NatText(m / factor);
    var frac := TrimZeros(PadText(m % factor, scale));
    Pieces(units < 0, whole, frac);
    NatTextHasNoLeadingZero(m / factor);
    ParseOfFormat(units, scale);
    if FormatUnits(units, scale) == "-0" {
      MinusZeroIsZero(scale);
      ParseOfFormat(0, scale);
      FormatOfZero(scale);
    }
  }

  lemma MinusZeroIsZero(scale: nat)
    ensures ParseUnits("-0", scale) == Some(0)
  {
    hide IsDecimal, IsNegative, Whole, Frac, HasPoint, Unsigned, PadText, NatText, TrimZeros, NatOf, Pow;
    Pieces(true, "0", "");
    assert "-0" == Sign(true) + "0" + "";
    assert "" + Zeros(scale) == Zeros(scale);
    NatOfPadZero(scale);
    NatOfConcat("0", Zeros(scale));
    NatOfNatText(0);
    assert NatText(0) == "0" by { NatTextOfZero(); }
  }

  lemma NatTextOfZero()
    ensures NatText(0) == "0"
  {
  }

  lemma NatOfPadZero(scale: nat)
    ensures NatOf(Zeros(scale)) == 0
  {
    PadTextOfZero(scale);
    PowPositive(scale);
    NatOfPadText(0, scale);
  }

  lemma FormatOfZero(scale: nat)
    ensures FormatUnits(0, scale) == "0"
  {
    hide PadText, Pow, TrimZeros;
    PowPositive(scale);
    QuotientAndRemainder(0, 0, Pow(10, scale));
    PadTextOfZero(scale);
    TrimOfPadded("", scale);
    assert "" + Zeros(scale) == Zeros(scale);
    assert NatText(0) == "0";
  }

  /** Writing back the number that a canonical text denotes gives the text. */
  lemma FormatOfParse(s: string, scale: nat)
    requires IsCanonical(s, scale)
    ensures ParseUnits(s, scale).Some?
    ensures FormatUnits(ParseUnits(s, scale).value, scale) == s
  {
    hide IsDecimal, IsNegative, Whole, Frac, HasPoint, Unsigned, NatText, PadText, TrimZeros, NatOf, Pow;
    var whole, frac := Whole(s), Frac(s);
    DecimalPieces(s);
    var padded := frac + Zeros(scale - |frac|);
    JoinedDigits(whole, padded);
    PadTextOfNatOf(padded);
    TrimOfPadded(frac, scale - |frac|);
    NatTextOfNatOf(whole);
    TextFromPieces(s);
    if IsNegative(s) {
      CanonicalNegative(s, scale);
    }
  }

  lemma DecimalPieces(s: string)
    requires IsDecimal(s)
    ensures Whole(s) != "" && AllDigits(Whole(s)) && AllDigits(Frac(s))
    ensures HasPoint(s) ==> Frac(s) != ""
  {
  }

  lemma CanonicalNegative(s: string, scale: nat)
    requires IsCanonical(s, scale) && IsNegative(s)
    ensures NatOf(ScaledDigits(s, scale)) > 0
  {
    hide IsDecimal, IsNegative, Whole, Frac, HasPoint, Unsigned, NatText, PadText, TrimZeros, NatOf, Pow;
    var whole, frac := Whole(s), Frac(s);
    DecimalPieces(s);
    var padded := frac + Zeros(scale - |frac|);
    JoinedDigits(whole, padded);
    NatOfConcat(whole, padded);
    NatTextOfNatOf(whole);
    PadTextOfNatOf(padded);
    PadTextOfZero(scale);
    TextFromPieces(s);
    if frac != "" {
      assert padded[|frac| - 1] != '0';
      assert padded != Zeros(scale);
    } else {
      assert s == "-" + whole;
      assert whole[0] != '0';
    }
    PowPositive(scale);
    ZeroProduct(NatOf(whole), Pow(10, scale), NatOf(padded));
  }

  lemma ZeroProduct(x: nat, p: nat, y: nat)
    requires p > 0 && (x > 0 || y > 0)
    ensures x * p + y > 0
  {
  }

  /** Canonical texts and amounts correspond one to one. */
  lemma CanonicalTexts(s: string, scale: nat)
    ensures IsCanonical(s, scale) <==> exists units :: FormatUnits(units, scale) == s
  {
    if IsCanonical(s, scale) {
      FormatOfParse(s, scale);
    }
    if units :| FormatUnits(units, scale) == s {
      FormatIsCanonical(units, scale);
    }
  }

  /** A text read at a finer scale denotes the same quantity. */
  lemma FinerScale(s: string, scale: nat, extra: nat)
    requires ParseUnits(s, scale).Some?
    ensures ParseUnits(s, scale + extra) == Some(ParseUnits(s, scale).value * Pow(10, extra))
  {
    hide IsDecimal, IsNegative, Whole, Frac, NatOf, Pow;
    var digits := ScaledDigits(s, scale);
    assert ScaledDigits(s, scale + extra) == digits + Zeros(extra);
    NatOfConcat(digits, Zeros(extra));
    NatOfPadZero(extra);
    var n: int, p: int := NatOf(digits), Pow(10, extra);
    assert (-n) * p == -(n * p);
  }
}
