/** The database and JSON surfaces of an amount. Both carry it as a string. */
module MoneySql {
  import opened Wrappers
  import opened Money
  import Decimal

  /** What the driver hands to Scan, or Value hands to the driver. */
  datatype DriverValue = Null | Str(text: string) | Bytes(text: string) | Float64 | Other

  /** The JSON document: null, the wire record, or anything that does not decode into the record. */
  datatype Json = JsonNull | Wire(amount: string, currency: string) | Malformed

  datatype Failure = BadValue(error: Money.Error) | RefusedFloat | UnsupportedType | BadJson

  /** The currency Scan passes to Parse, because the column does not carry one. */
  const PLACEHOLDER := "XXX"

  function Value(a: Amount): DriverValue {
    if Valid(a) then Str(ToString(a)) else Null
  }

  function WithCurrency(a: Amount, currency: string): Result<Amount, Money.Error> {
    match ValidateCurrency(currency)
    case Some(e) => Err(e)
    case None => Ok(Amount(a.units, currency))
  }

  function MarshalJSON(a: Amount): Json {
    if Valid(a) then Wire(ToString(a), a.currency) else JsonNull
  }

  function Scanned(src: DriverValue): Result<Amount, Failure> {
    match src
    case Null => Ok(ZERO_VALUE)
    case Str(text) => ScannedText(text)
    case Bytes(text) => ScannedText(text)
    case Float64 => Err(RefusedFloat)
    case Other => Err(UnsupportedType)
  }

  function ScannedText(text: string): Result<Amount, Failure> {
    match Parse(text, PLACEHOLDER)
    case Err(e) => Err(BadValue(e))
    case Ok(a) => Ok(a)
  }

  function Unmarshalled(doc: Json): Result<Amount, Failure> {
    match doc
    case JsonNull => Ok(ZERO_VALUE)
    case Malformed => Err(BadJson)
    case Wire(amount, currency) =>
      match Parse(amount, currency)
      case Err(e) => Err(BadValue(e))
      case Ok(a) => Ok(a)
  }

  /** The variable that Scan and UnmarshalJSON overwrite, and leave alone on failure. */
  class Target {
    var value: Amount

    constructor ()
      ensures value == ZERO_VALUE
    {
      value := ZERO_VALUE;
    }

    method Scan(src: DriverValue) returns (e: Option<Failure>)
      modifies this
      ensures match Scanned(src)
              case Ok(a) => e == None && value == a
              case Err(f) => e == Some(f) && value == old(value)
    {
      match src
      case Null =>
        value := ZERO_VALUE;
        e := None;
      case Str(text) =>
        e := ScanString(text);
      case Bytes(text) =>
        e := ScanString(text);
      case Float64 =>
        e := Some(RefusedFloat);
      case Other =>
        e := Some(UnsupportedType);
    }

    method ScanString(text: string) returns (e: Option<Failure>)
      modifies this
      ensures match ScannedText(text)
              case Ok(a) => e == None && value == a
              case Err(f) => e == Some(f) && value == old(value)
    {
      var parsed := Parse(text, PLACEHOLDER);
      if parsed.Err? {
        return Some(BadValue(parsed.error));
      }
      value := parsed.value;
      e := None;
    }

    method UnmarshalJSON(doc: Json) returns (e: Option<Failure>)
      modifies this
      ensures match Unmarshalled(doc)
              case Ok(a) => e == None && value == a
              case Err(f) => e == Some(f) && value == old(value)
    {
      if doc == JsonNull {
        value := ZERO_VALUE;
        return None;
      }
      if doc == Malformed {
        return Some(BadJson);
      }
      var parsed := Parse(doc.amount, doc.currency);
      if parsed.Err? {
        return Some(BadValue(parsed.error));
      }
      value := parsed.value;
      e := None;
    }
  }

  /** The JSON form restores every amount the package can produce, the zero value included. */
  lemma JsonRoundTrip(a: Amount)
    ensures Unmarshalled(MarshalJSON(a)) == Ok(a) <==> WellFormed(a)
  {
    if ValidateCurrency(a.currency) == None {
      ParseOfString(a);
    }
  }

  /** A numeric column and a currency column together restore every amount with a proper
      currency; before the currency is set, the scanned amount carries the placeholder. */
  lemma SqlRoundTrip(a: Amount)
    requires ValidateCurrency(a.currency) == None
    ensures Scanned(Value(a)) == Ok(Amount(a.units, "XXX"))
    ensures WithCurrency(Scanned(Value(a)).value, a.currency) == Ok(a)
    ensures Scanned(Bytes(ToString(a))) == Scanned(Value(a))
  {
    hide Decimal.FormatUnits, Decimal.ParseUnits;
    Decimal.ParseOfFormat(a.units, SCALE);
    assert ValidateCurrency(PLACEHOLDER) == None;
  }

  /** Every column but a NULL one gives an amount that already carries the placeholder currency, whoever wrote it. */
  lemma ScannedCurrency(src: DriverValue)
    requires Scanned(src).Ok?
    ensures Scanned(src).value.currency == "" <==> src == Null
    ensures src != Null ==> Scanned(src).value.currency == "XXX" && Valid(Scanned(src).value)
  {
    hide Decimal.ParseUnits;
  }

  /** Text is read as an amount in either form, a float and everything else are refused, and a NULL is the zero value. */
  lemma ScannedForms(text: string)
    ensures Scanned(Str(text)) == Scanned(Bytes(text))
    ensures Scanned(Str(text)).Ok? <==>
      exists negative, whole, frac :: Decimal.IsDecimalOf(text, negative, whole, frac) && |frac| <= 4
    ensures Scanned(Str(text)).Err? ==> Scanned(Str(text)) == Err(BadValue(BadAmount))
    ensures Scanned(Float64) == Err(RefusedFloat) && Scanned(Other) == Err(UnsupportedType)
    ensures Scanned(Null) == Ok(Amount(0, ""))
  {
    hide Decimal.ParseUnits;
    assert ValidateCurrency(PLACEHOLDER) == None;
    ParseRefuses(text, PLACEHOLDER);
  }

  /** A currency can be set if and only if it is three capital letters; setting keeps the units, and a later one wins. */
  lemma WithCurrencyIs(a: Amount, currency: string, later: string)
    ensures WithCurrency(a, currency).Ok? <==>
      |currency| == 3 && forall k :: 0 <= k < 3 ==> 'A' <= currency[k] <= 'Z'
    ensures WithCurrency(a, currency).Ok? ==>
      var b := WithCurrency(a, currency).value;
      b.units == a.units && b.currency == currency && WithCurrency(b, later) == WithCurrency(a, later)
    ensures WithCurrency(a, currency) == Err(NoCurrency) <==> currency == ""
    ensures WithCurrency(a, currency).Err? ==> WithCurrency(a, currency).error in {NoCurrency, BadCurrency}
  {
    hide ValidateCurrency;
    ProperCurrencies(currency);
  }

  /** The column text is reproduced exactly when it is canonical. */
  lemma ColumnText(text: string)
    ensures Decimal.IsCanonical(text, SCALE)
       <==> Scanned(Str(text)).Ok? && Value(Scanned(Str(text)).value) == Str(text)
  {
    hide Decimal.IsCanonical, Decimal.FormatUnits, Decimal.ParseUnits;
    assert ValidateCurrency(PLACEHOLDER) == None;
    StringIsCanonical(text, PLACEHOLDER);
  }
}
