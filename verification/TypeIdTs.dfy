/** The TypeScript identifier package: the same wire form, over hexadecimal UUID text. A string is the UTF-16 code units of
    a JavaScript string, one character for each; a surrogate, which is no Dafny character, stands as one past U+FFFF. */
module TypeIdTs {
  import opened Wrappers
  import opened Bytes
  import opened Numerals
  import opened Bits
  import opened Text
  import Go = TypeId

  /** The causes of an InvalidIdError. */
  datatype Invalid =
    | NoSeparator | BadPrefix | WrongPrefix
    | SuffixLength | SuffixCharset | SuffixRange | NotAUuid

  datatype ParsedId = ParsedId(prefix: string, uuid: string)

  const HEX := "0123456789abcdef"

  // ---- hexadecimal text ----

  function HexValue(c: char): (d: nat) {
    IndexIn(HEX, c)
  }

  predicate IsHex(s: string) {
    forall k :: 0 <= k < |s| ==> HexValue(s[k]) < 16
  }

  /** Number.toString(16) of a byte, padded to two characters. */
  function HexOfByte(b: bv8): (s: string)
    ensures |s| == 2
  {
    [HEX[b as nat / 16], HEX[b as nat % 16]]
  }

  function HexOf(u: seq<bv8>): (s: string)
    ensures |s| == 2 * |u|
  {
    if u == [] then [] else HexOfByte(u[0]) + HexOf(u[1..])
  }

  /** Number.parseInt of two hexadecimal characters. */
  function ByteOfHex(s: string): bv8
    requires |s| == 2 && IsHex(s)
  {
    (16 * HexValue(s[0]) + HexValue(s[1])) as bv8
  }

  function BytesOfHex(s: string): (u: seq<bv8>)
    requires |s| % 2 == 0 && IsHex(s)
    ensures 2 * |u| == |s|
  {
    if s == [] then [] else [ByteOfHex(s[..2])] + BytesOfHex(s[2..])
  }

  /** The 8-4-4-4-12 grouping. */
  function Hyphenate(hex: string): string
    requires |hex| == 32
  {
    hex[..8] + "-" + hex[8..12] + "-" + hex[12..16] + "-" + hex[16..20] + "-" + hex[20..32]
  }

  function ToHyphenated(u: UUID): string {
    Hyphenate(HexOf(u))
  }

  function RemoveHyphens(s: string): string {
    if s == [] then []
    else if s[0] == '-' then RemoveHyphens(s[1..])
    else [s[0]] + RemoveHyphens(s[1..])
  }

  /** Lower case of the ASCII letters; no other character lower-cases to a hexadecimal one. */
  function ToLower(s: string): (r: string)
    ensures |r| == |s|
  {
    seq(|s|, k requires 0 <= k < |s| => if 'A' <= s[k] <= 'Z' then (s[k] as int + 32) as char else s[k])
  }

  /** The hexadecimal digits of a UUID in any accepted spelling. */
  function HexDigits(uuid: string): string {
    ToLower(RemoveHyphens(uuid))
  }

  predicate IsUuidText(uuid: string) {
    |HexDigits(uuid)| == 32 && IsHex(HexDigits(uuid))
  }

  lemma HexInverts(d: nat)
    requires d < 16
    ensures HexValue(HEX[d]) == d
  {
    var k := IndexIn(HEX, HEX[d]);
    if k > d {
      assert false;
    }
    if k < d {
      HexAscends(k, d);
      assert false;
    }
  }

  lemma HexAscends(i: nat, j: nat)
    requires i < j < 16
    ensures HEX[i] < HEX[j]
  {
  }

  lemma ByteHexRoundTrip(s: string)
    requires |s| == 2 && IsHex(s)
    ensures HexOfByte(ByteOfHex(s)) == s
  {
    hide HexValue;
    var a, b := HexValue(s[0]), HexValue(s[1]);
    HexCharacter(s[0]);
    HexCharacter(s[1]);
    ByteOfNat(16 * a + b);
    Nibbles(a, b);
  }

  lemma HexCharacter(c: char)
    requires HexValue(c) < 16
    ensures HEX[HexValue(c)] == c
  {
  }

  lemma HexByteRoundTrip(b: bv8)
    ensures IsHex(HexOfByte(b)) && ByteOfHex(HexOfByte(b)) == b
  {
    hide HexValue;
    var n := b as nat;
    HexInverts(n / 16);
    HexInverts(n % 16);
    assert n == 16 * (n / 16) + n % 16;
  }

  lemma {:induction false} HexRoundTrip(s: string)
    requires |s| % 2 == 0 && IsHex(s)
    ensures HexOf(BytesOfHex(s)) == s
  {
    hide HexValue, HexOfByte, ByteOfHex;
    if s != [] {
      ByteHexRoundTrip(s[..2]);
      HexRoundTrip(s[2..]);
      var u := BytesOfHex(s);
      assert u[1..] == BytesOfHex(s[2..]);
    }
  }

  lemma {:induction false} BytesRoundTrip(u: seq<bv8>)
    ensures IsHex(HexOf(u)) && BytesOfHex(HexOf(u)) == u
  {
    hide HexValue, HexOfByte, ByteOfHex;
    if u != [] {
      HexByteRoundTrip(u[0]);
      BytesRoundTrip(u[1..]);
      var s := HexOf(u);
      assert s[..2] == HexOfByte(u[0]) && s[2..] == HexOf(u[1..]);
    }
  }

  lemma {:induction false} ByteAt(s: string, k: nat)
    requires |s| % 2 == 0 && IsHex(s) && 2 * k < |s|
    ensures BytesOfHex(s)[k] == ByteOfHex(s[2 * k..2 * k + 2])
  {
    hide HexValue, ByteOfHex;
    if k == 0 {
      assert s[0..2] == s[..2];
    } else {
      var rest := s[2..];
      ByteAt(rest, k - 1);
      assert rest[2 * (k - 1)..2 * (k - 1) + 2] == s[2 * k..2 * k + 2];
      assert BytesOfHex(s)[k] == BytesOfHex(rest)[k - 1];
    }
  }

  // ---- what a text denotes ----

  predicate IsHexDigit(c: char) {
    '0' <= c <= '9' || 'a' <= c <= 'f' || 'A' <= c <= 'F'
  }

  function HexDigitValue(c: char): nat
    requires IsHexDigit(c)
  {
    if c <= '9' then c as nat - '0' as nat
    else if c <= 'F' then c as nat - 'A' as nat + 10
    else c as nat - 'a' as nat + 10
  }

  predicate AreHexDigits(s: string) {
    forall k :: 0 <= k < |s| ==> IsHexDigit(s[k])
  }

  function HexDigitValues(s: string): seq<nat>
    requires AreHexDigits(s)
  {
    seq(|s|, k requires 0 <= k < |s| => HexDigitValue(s[k]))
  }

  lemma HexAt(i: nat)
    ensures |HEX| == 16
    ensures i < 10 ==> HEX[i] as nat == '0' as nat + i
    ensures 10 <= i < 16 ==> HEX[i] as nat == 'a' as nat + (i - 10)
  {
  }

  lemma HexValueIs(c: char)
    ensures HexValue(c) < 16 <==> IsHexDigit(c) && !('A' <= c <= 'F')
    ensures HexValue(c) < 16 ==> HexValue(c) == HexDigitValue(c)
  {
    hide HEX, HexValue;
    HexAt(0);
    if IsHexDigit(c) && !('A' <= c <= 'F') {
      HexAt(HexDigitValue(c));
      HexInverts(HexDigitValue(c));
    }
    if HexValue(c) < 16 {
      HexCharacter(c);
      HexAt(HexValue(c));
    }
  }

  lemma {:induction false} HexDenotes(u: seq<bv8>)
    ensures AreHexDigits(HexOf(u)) && Value(HexDigitValues(HexOf(u)), 16) == Number(u)
  {
    hide HexValue, IsHexDigit, HexDigitValue;
    if u == [] {
      ValueOfNothing(16);
    } else {
      var p, b := u[..|u| - 1], u[|u| - 1];
      HexDenotes(p);
      HexOfSnoc(p, b);
      assert u == p + [b];
      ByteDenotes(b);
      var low := HexDigitValues(HexOfByte(b));
      assert HexDigitValues(HexOf(u)) == HexDigitValues(HexOf(p)) + low;
      ValueOfConcat(HexDigitValues(HexOf(p)), low, 16);
      assert Pow(16, 2) == 256;
    }
  }

  lemma {:induction false} HexOfSnoc(p: seq<bv8>, b: bv8)
    ensures HexOf(p + [b]) == HexOf(p) + HexOfByte(b)
  {
    hide HexOfByte;
    if p == [] {
      assert HexOf([b]) == HexOfByte(b) + HexOf([]);
    } else {
      HexOfSnoc(p[1..], b);
      assert (p + [b])[1..] == p[1..] + [b];
    }
  }

  lemma ByteDenotes(b: bv8)
    ensures AreHexDigits(HexOfByte(b)) && Value(HexDigitValues(HexOfByte(b)), 16) == b as nat
  {
    hide HexValue, HEX;
    var s, n := HexOfByte(b), b as nat;
    HexAt(0);
    HexInverts(n / 16);
    HexInverts(n % 16);
    HexValueIs(s[0]);
    HexValueIs(s[1]);
    var d := HexDigitValues(s);
    ValueOfPrefix(d, 2, 16);
    ValueOfPrefix(d, 1, 16);
    assert d[..2] == d && d[..0] == [];
    QuotientIsNat(n, 16);
  }

  // ---- canonical text ----

  lemma {:induction false} RemoveHyphensConcat(a: string, b: string)
    ensures RemoveHyphens(a + b) == RemoveHyphens(a) + RemoveHyphens(b)
  {
    hide RemoveHyphens;
    if a == [] {
      assert a + b == b;
      assert RemoveHyphens([]) == [] by { RemovedFromNothing(); }
    } else {
      RemoveHyphensConcat(a[1..], b);
      assert a == [a[0]] + a[1..] && a + b == [a[0]] + (a[1..] + b);
      RemovedFirst(a[0], a[1..]);
      RemovedFirst(a[0], a[1..] + b);
    }
  }

  lemma RemovedFromNothing()
    ensures RemoveHyphens([]) == []
  {
  }

  lemma RemovedFirst(c: char, s: string)
    ensures RemoveHyphens([c] + s) == if c == '-' then RemoveHyphens(s) else [c] + RemoveHyphens(s)
  {
    assert ([c] + s)[1..] == s;
  }

  lemma RemoveHyphensJoin(a: string, b: string)
    ensures RemoveHyphens(a + "-" + b) == RemoveHyphens(a) + RemoveHyphens(b)
  {
    RemoveHyphensConcat(a + "-", b);
    RemoveHyphensConcat(a, "-");
    assert RemoveHyphens("-") == [];
  }

  lemma {:induction false} NoHyphens(s: string)
    requires '-' !in s
    ensures RemoveHyphens(s) == s
  {
    if s != [] {
      NoHyphens(s[1..]);
    }
  }

  lemma HexIsLower(c: char)
    requires HexValue(c) < 16
    ensures c != '-' && !('A' <= c <= 'Z')
  {
    assert c in HEX;
  }

  lemma RemovedHyphens(hex: string)
    requires |hex| == 32 && '-' !in hex
    ensures RemoveHyphens(Hyphenate(hex)) == hex
  {
    hide RemoveHyphens;
    var a, b, c, d, e := hex[..8], hex[8..12], hex[12..16], hex[16..20], hex[20..32];
    assert hex == a + b + c + d + e;
    RemoveHyphensJoin(a, b);
    RemoveHyphensJoin(a + "-" + b, c);
    RemoveHyphensJoin(a + "-" + b + "-" + c, d);
    RemoveHyphensJoin(a + "-" + b + "-" + c + "-" + d, e);
    NoHyphens(a);
    NoHyphens(b);
    NoHyphens(c);
    NoHyphens(d);
    NoHyphens(e);
  }

  /** The hyphenated form has the digits it was made from. */
  lemma DigitsOfHyphenated(hex: string)
    requires |hex| == 32 && IsHex(hex)
    ensures HexDigits(Hyphenate(hex)) == hex
  {
    hide HexValue, RemoveHyphens;
    forall k | 0 <= k < 32 ensures hex[k] != '-' && !('A' <= hex[k] <= 'Z') {
      HexIsLower(hex[k]);
    }
    RemovedHyphens(hex);
    assert ToLower(hex) == hex;
  }

  /** The canonical text of a UUID reads back as that UUID. */
  lemma CanonicalText(u: UUID)
    ensures IsUuidText(ToHyphenated(u)) && BytesOfHex(HexDigits(ToHyphenated(u))) == u
  {
    hide HexValue, BytesOfHex, HexOf, Hyphenate, ToLower;
    BytesRoundTrip(u);
    DigitsOfHyphenated(HexOf(u));
  }

  // ---- prefix and suffix ----

  predicate IsValidPrefix(prefix: string) {
    && 0 < |prefix| <= Go.MAX_PREFIX_LEN
    && prefix[0] != '_' && prefix[|prefix| - 1] != '_'
    && forall k :: 0 <= k < |prefix| ==> 'a' <= prefix[k] <= 'z' || prefix[k] == '_'
  }

  /** The decoded suffix as canonical text, or the error of the corresponding check. */
  function DecodeSuffix(s: string): Result<string, Invalid> {
    match Go.Decode(s)
    case Ok(u) => Ok(ToHyphenated(u))
    case Err(e) =>
      if e == Go.SuffixLength then Err(SuffixLength)
      else if e == Go.SuffixRange then Err(SuffixRange)
      else Err(SuffixCharset)
  }

  function EncodeUuid(uuid: string): Result<string, Invalid> {
    if IsUuidText(uuid) then Ok(Go.Encode(BytesOfHex(HexDigits(uuid)))) else Err(NotAUuid)
  }

  function ParseId(value: string, expected: Option<string>): Result<ParsedId, Invalid> {
    var separator := LastIndex(value, '_');
    if separator < 0 then Err(NoSeparator)
    else
      var prefix := value[..separator];
      if !IsValidPrefix(prefix) then Err(BadPrefix)
      else if expected.Some? && prefix != expected.value then Err(WrongPrefix)
      else match DecodeSuffix(value[separator + 1..])
        case Err(e) => Err(e)
        case Ok(uuid) => Ok(ParsedId(prefix, uuid))
  }

  function FormatId(prefix: string, uuid: string): Result<string, Invalid> {
    if !IsValidPrefix(prefix) then Err(BadPrefix)
    else match EncodeUuid(uuid)
      case Err(e) => Err(e)
      case Ok(suffix) => Ok(prefix + "_" + suffix)
  }

  // ---- text and suffix denote one number ----

  /** Lower-casing keeps the value of a hexadecimal digit and makes no other character one. */
  lemma LowerKeepsDigits(s: string)
    ensures IsHex(ToLower(s)) <==> AreHexDigits(s)
    ensures AreHexDigits(s) ==> AreHexDigits(ToLower(s)) && HexDigitValues(ToLower(s)) == HexDigitValues(s)
  {
    hide HexValue;
    forall k | 0 <= k < |s|
      ensures HexValue(ToLower(s)[k]) < 16 <==> IsHexDigit(s[k])
      ensures IsHexDigit(s[k]) ==> IsHexDigit(ToLower(s)[k]) && HexDigitValue(ToLower(s)[k]) == HexDigitValue(s[k])
    {
      HexValueIs(ToLower(s)[k]);
    }
  }

  /** The texts of UUIDs: 32 hexadecimal digits in either case, and hyphens anywhere. */
  lemma AcceptedUuids(uuid: string)
    ensures IsUuidText(uuid) <==> |RemoveHyphens(uuid)| == 32 && AreHexDigits(RemoveHyphens(uuid))
    ensures '-' !in uuid ==> (IsUuidText(uuid) <==> |uuid| == 32 && AreHexDigits(uuid))
  {
    hide IsHex, ToLower, AreHexDigits, RemoveHyphens;
    LowerKeepsDigits(RemoveHyphens(uuid));
    assert |ToLower(RemoveHyphens(uuid))| == |RemoveHyphens(uuid)|;
    if '-' !in uuid {
      NoHyphens(uuid);
    }
  }

  /** The text spells the number of the suffix: its hexadecimal digits, in any case and between hyphens. */
  ghost predicate SameNumber(uuid: string, suffix: string) {
    var digits := RemoveHyphens(uuid);
    && |digits| == 32 && AreHexDigits(digits)
    && |suffix| == 26 && Go.AllCrockford(suffix)
    && Value(HexDigitValues(digits), 16) == Value(Go.CrockfordDigits(suffix), 32)
  }

  /** Canonical text: lower case, in groups of 8, 4, 4, 4 and 12. */
  ghost predicate IsCanonical(text: string) {
    && |text| == 36
    && forall k :: 0 <= k < 36 ==>
         if k in {8, 13, 18, 23} then text[k] == '-' else IsHexDigit(text[k]) && !('A' <= text[k] <= 'F')
  }

  lemma HyphenatedIsCanonical(hex: string)
    requires |hex| == 32 && IsHex(hex)
    ensures IsCanonical(Hyphenate(hex)) && RemoveHyphens(Hyphenate(hex)) == hex
  {
    hide HexValue, IsHexDigit, RemoveHyphens;
    forall i | 0 <= i < 32 ensures IsHexDigit(hex[i]) && !('A' <= hex[i] <= 'F') {
      HexValueIs(hex[i]);
    }
    HyphenIsNoDigit();
    RemovedHyphens(hex);
  }

  /** A canonical text is determined by its digits. */
  lemma CanonicalIsHyphenated(text: string)
    requires IsCanonical(text)
    ensures |RemoveHyphens(text)| == 32 && IsHex(RemoveHyphens(text)) && Hyphenate(RemoveHyphens(text)) == text
  {
    hide HexValue, IsHexDigit, RemoveHyphens, IsCanonical;
    assert |text| == 36 by { CanonicalAt(text, 0); }
    var hex := text[..8] + text[9..13] + text[14..18] + text[19..23] + text[24..36];
    GroupsOf(text);
    forall k | 0 <= k < 32 ensures HexValue(hex[k]) < 16 && hex[k] != '-' {
      var i := if k < 8 then k else if k < 12 then k + 1 else if k < 16 then k + 2 else if k < 20 then k + 3 else k + 4;
      assert hex[k] == text[i];
      CanonicalAt(text, i);
      HexValueIs(text[i]);
      HyphenIsNoDigit();
    }
    RemovedHyphens(hex);
  }

  lemma CanonicalAt(text: string, k: nat)
    requires IsCanonical(text) && k < 36
    ensures |text| == 36
    ensures if k in {8, 13, 18, 23} then text[k] == '-' else IsHexDigit(text[k]) && !('A' <= text[k] <= 'F')
  {
  }

  lemma GroupsOf(text: string)
    requires IsCanonical(text)
    ensures Hyphenate(text[..8] + text[9..13] + text[14..18] + text[19..23] + text[24..36]) == text
  {
    hide IsHexDigit;
    var hex := text[..8] + text[9..13] + text[14..18] + text[19..23] + text[24..36];
    assert && hex[..8] == text[..8] && hex[8..12] == text[9..13] && hex[12..16] == text[14..18]
           && hex[16..20] == text[19..23] && hex[20..32] == text[24..36];
    assert text == text[..8] + [text[8]] + text[9..13] + [text[13]] + text[14..18] + [text[18]] + text[19..23]
                   + [text[23]] + text[24..36];
  }

  lemma HyphenIsNoDigit()
    ensures !IsHexDigit('-')
  {
  }

  /** The bytes of a text have its number. */
  lemma TextNumber(uuid: string)
    requires IsUuidText(uuid)
    ensures AreHexDigits(RemoveHyphens(uuid))
    ensures Number(BytesOfHex(HexDigits(uuid))) == Value(HexDigitValues(RemoveHyphens(uuid)), 16)
  {
    hide HexValue, BytesOfHex, HexOf, ToLower, HexDigitValues, AreHexDigits, RemoveHyphens, Number, Value, IsHex;
    LowerKeepsDigits(RemoveHyphens(uuid));
    HexRoundTrip(HexDigits(uuid));
    HexDenotes(BytesOfHex(HexDigits(uuid)));
  }

  /** Encoding gives the one suffix with the number of the text, and fails on every other text. */
  lemma EncodedUuid(uuid: string, suffix: string)
    ensures EncodeUuid(uuid) == Ok(suffix) <==> SameNumber(uuid, suffix)
  {
    hide HexDigits, BytesOfHex, AreHexDigits, HexDigitValues, RemoveHyphens, Go.Encode, Go.AllCrockford, Go.CrockfordDigits, Number, Value, IsHex;
    AcceptedUuids(uuid);
    if IsUuidText(uuid) {
      TextNumber(uuid);
      Go.EncodeDenotes(suffix, BytesOfHex(HexDigits(uuid)));
    }
  }

  /** Decoding a suffix gives the one canonical text with its number. */
  lemma DecodedText(suffix: string, text: string)
    ensures DecodeSuffix(suffix) == Ok(text) <==> IsCanonical(text) && SameNumber(text, suffix)
  {
    hide IsCanonical, SameNumber, HexDigits, BytesOfHex, HexOf, Hyphenate, Go.Encode, Go.Decode, IsHex;
    if DecodeSuffix(suffix) == Ok(text) {
      var u := Go.Decode(suffix).value;
      Go.DecodeInvertsEncode(suffix, u);
      BytesRoundTrip(u);
      HyphenatedIsCanonical(HexOf(u));
      CanonicalText(u);
      EncodedUuid(text, suffix);
    }
    if IsCanonical(text) && SameNumber(text, suffix) {
      EncodedUuid(text, suffix);
      var u: UUID := BytesOfHex(HexDigits(text));
      Go.DecodeInvertsEncode(suffix, u);
      CanonicalIsHyphenated(text);
      HexRoundTrip(HexDigits(text));
      DigitsOfHyphenated(RemoveHyphens(text));
    }
  }

  /** The suffix of the text's number, or nothing when the text is no UUID. */
  ghost predicate IsEncoded(uuid: string, r: Result<string, Invalid>) {
    forall suffix :: r == Ok(suffix) <==> SameNumber(uuid, suffix)
  }

  /** The canonical text of the suffix's number, or nothing when it has none. */
  ghost predicate IsDecoded(suffix: string, r: Result<string, Invalid>) {
    forall text :: r == Ok(text) <==> IsCanonical(text) && SameNumber(text, suffix)
  }

  lemma EncodedUuids(uuid: string)
    ensures IsEncoded(uuid, EncodeUuid(uuid))
  {
    hide EncodeUuid, SameNumber;
    forall suffix ensures EncodeUuid(uuid) == Ok(suffix) <==> SameNumber(uuid, suffix) {
      EncodedUuid(uuid, suffix);
    }
  }

  lemma DecodedTexts(suffix: string)
    ensures IsDecoded(suffix, DecodeSuffix(suffix))
  {
    hide DecodeSuffix, SameNumber, IsCanonical;
    forall text ensures DecodeSuffix(suffix) == Ok(text) <==> IsCanonical(text) && SameNumber(text, suffix) {
      DecodedText(suffix, text);
    }
  }

  /** Which check a suffix fails. */
  lemma DecodeSuffixErrors(suffix: string)
    ensures DecodeSuffix(suffix) == Err(SuffixLength) <==> |suffix| != 26
    ensures DecodeSuffix(suffix) == Err(SuffixRange) <==> |suffix| == 26 && Go.IsCrockford(suffix[0]) && suffix[0] > '7'
    ensures DecodeSuffix(suffix).Ok? || DecodeSuffix(suffix).error in {SuffixLength, SuffixRange, SuffixCharset}
  {
    hide ToHyphenated, Go.Decode, Go.IsCrockford;
    Go.DecodeReads(suffix);
  }

  /** A text is cut at its last underscore; the prefix is judged first, then the type, then the suffix. */
  lemma ParseIdErrors(prefix: string, suffix: string, expected: Option<string>)
    requires '_' !in suffix
    ensures ParseId(suffix, expected) == Err(NoSeparator)
    ensures var r := ParseId(prefix + "_" + suffix, expected);
      if !IsValidPrefix(prefix) then r == Err(BadPrefix)
      else if expected.Some? && expected != Some(prefix) then r == Err(WrongPrefix)
      else if DecodeSuffix(suffix).Err? then r == Err(DecodeSuffix(suffix).error)
      else r == Ok(ParsedId(prefix, DecodeSuffix(suffix).value))
    ensures var r := FormatId(prefix, suffix);
      if !IsValidPrefix(prefix) then r == Err(BadPrefix) else r.Err? ==> r == Err(NotAUuid)
  {
    hide DecodeSuffix, IsValidPrefix, IsUuidText, LastIndex;
    var s := prefix + "_" + suffix;
    assert s[|prefix|] == '_' && s[..|prefix|] == prefix && s[|prefix| + 1..] == suffix;
    LastIndexIs(s, '_', |prefix|);
  }

  // ---- the loops ----

  /** The table lookup, with `undefined` for a character outside the alphabet. */
  function DecodeGet(c: char): Option<bv8> {
    if Go.InAlphabet(c) then Some(Go.DecodeTable(c)) else None
  }

  lemma SuffixOutcomes(suffix: string)
    ensures |suffix| != 26 ==> DecodeSuffix(suffix) == Err(SuffixLength)
    ensures |suffix| == 26 && !Go.InAlphabet(suffix[0]) ==> DecodeSuffix(suffix) == Err(SuffixCharset)
    ensures |suffix| == 26 && Go.InAlphabet(suffix[0]) ==>
      if Go.DecodeTable(suffix[0]) > 7 then DecodeSuffix(suffix) == Err(SuffixRange)
      else if !Go.AllInAlphabet(suffix) then DecodeSuffix(suffix) == Err(SuffixCharset)
      else Go.Decode(suffix).Ok? && DecodeSuffix(suffix) == Ok(ToHyphenated(Go.Decode(suffix).value))
  {
    hide Go.InAlphabet, Go.DecodeTable, ToHyphenated, Go.Unspell, FromNumber;
  }

  method DecodeSuffixByBits(suffix: string) returns (r: Result<string, Invalid>)
    ensures r == DecodeSuffix(suffix)
    ensures IsDecoded(suffix, r)
  {
    DecodedTexts(suffix);
    SuffixOutcomes(suffix);
    hide DecodeSuffix, Go.Decode, IsDecoded, BitOf, OredBit, Go.DecodeTable, Go.InAlphabet, Go.SpeltBits, Go.Unspell, LowFive, ToHyphenated, FromNumber;
    if |suffix| != Go.ENCODED_LEN {
      return Err(SuffixLength);
    }
    var first := DecodeGet(suffix[0]);
    Go.TableValue(suffix[0]);
    if first == None {
      return Err(SuffixCharset);
    }
    if first.value > 7 {
      return Err(SuffixRange);
    }
    var bytes := new bv8[16](_ => 0);
    bytes[0] := first.value << 5;
    FirstByteBits(bytes[..], first.value);
    Go.FirstSpelt(suffix);
    var bit := 3;
    for i := 1 to 26
      invariant bit == 5 * i - 2
      invariant Go.AllInAlphabet(suffix[..i])
      invariant BitsOf(bytes[..]) == Go.SpeltBits(suffix, i) + Zeros(128 - bit)
    {
      var value := DecodeGet(suffix[i]);
      Go.TableValue(suffix[i]);
      if value == None {
        return Err(SuffixCharset);
      }
      ghost var before := BitsOf(bytes[..]);
      bit := OrGroup(bytes, value.value, bit);
      Go.FilledOneMore(suffix, i, before, BitsOf(bytes[..]));
    }
    assert suffix[..26] == suffix;
    Go.SpeltBitsDecode(suffix, bytes[..]);
    r := Ok(ToHyphenated(bytes[..]));
  }

  /** The loop that fills the byte array from the hexadecimal digits. */
  method FillBytes(hex: string) returns (bytes: array<bv8>)
    requires |hex| == 32 && IsHex(hex)
    ensures bytes[..] == BytesOfHex(hex)
  {
    hide HexValue, ByteOfHex;
    bytes := new bv8[16](_ => 0);
    for i := 0 to 16
      invariant bytes[..i] == BytesOfHex(hex)[..i]
    {
      ByteAt(hex, i);
      bytes[i] := ByteOfHex(hex[2 * i..2 * i + 2]);
      assert bytes[..i + 1] == bytes[..i] + [bytes[i]];
    }
    assert bytes[..] == bytes[..16] && BytesOfHex(hex)[..16] == BytesOfHex(hex);
  }

  method EncodeUuidByBits(uuid: string) returns (r: Result<string, Invalid>)
    ensures r == EncodeUuid(uuid)
    ensures IsEncoded(uuid, r)
  {
    EncodedUuids(uuid);
    hide IsEncoded, HexValue, BytesOfHex, HexDigits, Go.Encode, PushedBit, BitOf, Digit, Go.InAlphabet, GroupValue;
    var hex := HexDigits(uuid);
    if !(|hex| == 32 && IsHex(hex)) {
      return Err(NotAUuid);
    }
    var bytes := FillBytes(hex);
    ghost var u: UUID := BytesOfHex(hex);
    ghost var wanted := Go.Encode(u);
    Go.FirstCharacterOf(u);
    var out := [Go.ALPHABET[(bytes[0] & 0xe0) >> 5]];
    var bit := 3;
    for i := 1 to 26
      invariant bit == 5 * i - 2
      invariant bytes[..] == u && out == wanted[..i]
    {
      var value;
      value, bit := NextGroup(bytes[..], bit);
      Go.NextCharacter(u, i);
      out := out + [Go.ALPHABET[value]];
    }
    assert out == wanted;
    r := Ok(out);
  }

  // ---- agreement and round trips ----

  lemma PrefixAgreement(prefix: string)
    ensures IsValidPrefix(prefix) <==> Go.ValidatePrefix(prefix) == None
  {
    if IsValidPrefix(prefix) {
      assert forall k :: 0 <= k < |prefix| ==> Go.PrefixChar(prefix[k]);
    }
    if Go.ValidatePrefix(prefix) == None {
      assert forall k :: 0 <= k < |prefix| ==> Go.PrefixChar(prefix[k]);
    }
  }

  /** Both parsers accept the same strings, with the same prefix and the same UUID. */
  lemma ParsersAgree(s: string)
    ensures match Go.ParseAny(s)
            case Ok(id) => ParseId(s, None) == Ok(ParsedId(id.prefix, ToHyphenated(id.uuid)))
            case Err(_) => ParseId(s, None).Err?
  {
    hide Go.Decode, Go.ValidatePrefix, IsValidPrefix, ToHyphenated;
    var sep := LastIndex(s, '_');
    if sep >= 0 {
      PrefixAgreement(s[..sep]);
    }
  }

  predicate IsAscii(s: string) {
    forall k :: 0 <= k < |s| ==> s[k] < '\U{80}'
  }

  /** The bytes of a text in some encoding, such as UTF-8. */
  type Encoding = string -> string

  /** An ASCII text is its own bytes, and no other text has ASCII bytes only. */
  ghost predicate KeepsAscii(enc: Encoding) {
    forall s :: if IsAscii(s) then enc(s) == s else !IsAscii(enc(s))
  }

  lemma AsciiConcat(a: string, b: string)
    ensures IsAscii(a + b) <==> IsAscii(a) && IsAscii(b)
  {
    assert forall k :: 0 <= k < |a| ==> (a + b)[k] == a[k];
    assert forall k :: 0 <= k < |b| ==> (a + b)[|a| + k] == b[k];
    if IsAscii(a + b) {
      forall k | 0 <= k < |b| ensures b[k] < '\U{80}' {
        assert (a + b)[|a| + k] < '\U{80}';
      }
    }
  }

  lemma AcceptedIsAscii(s: string)
    requires Go.ParseAny(s).Ok?
    ensures IsAscii(s)
  {
    hide Go.Decode, Go.Encode, Go.ParseAny, IsAscii;
    var id := Go.ParseAny(s).value;
    Go.ParseInvertsToString(s, id);
    Go.EncodeSpelling(id.uuid);
    PrefixIsAscii(id.prefix);
    SuffixIsAscii(Go.Encode(id.uuid));
    assert IsAscii("_") && IsAscii("") by { SeparatorIsAscii(); }
    AsciiConcat(id.prefix + "_", Go.Encode(id.uuid));
    AsciiConcat(id.prefix, "_");
  }

  lemma SeparatorIsAscii()
    ensures IsAscii("_") && IsAscii("")
  {
  }

  lemma PrefixIsAscii(prefix: string)
    requires Go.ValidatePrefix(prefix) == None
    ensures IsAscii(prefix)
  {
    PrefixAgreement(prefix);
  }

  lemma SuffixIsAscii(suffix: string)
    requires Go.AllInAlphabet(suffix)
    ensures IsAscii(suffix)
  {
    forall k | 0 <= k < |suffix| ensures suffix[k] < '\U{80}' {
      assert Go.InAlphabet(suffix[k]);
      AlphabetIsAscii(suffix[k]);
    }
  }

  lemma AlphabetIsAscii(c: char)
    requires Go.InAlphabet(c)
    ensures c < '\U{80}'
  {
  }

  /** The Go parser on the bytes of a text and the TypeScript parser on the text agree, outside ASCII too. */
  lemma ParsersAgreeOnBytes(enc: Encoding, s: string)
    requires KeepsAscii(enc)
    ensures match Go.ParseAny(enc(s))
            case Ok(id) => ParseId(s, None) == Ok(ParsedId(id.prefix, ToHyphenated(id.uuid)))
            case Err(_) => ParseId(s, None).Err?
  {
    hide Go.ParseAny, ParseId, IsAscii, ToHyphenated;
    ParsersAgree(s);
    if Go.ParseAny(s).Ok? {
      AcceptedIsAscii(s);
    }
    if Go.ParseAny(enc(s)).Ok? {
      AcceptedIsAscii(enc(s));
    }
  }

  /** The same with an expected type. */
  lemma TypedParsersAgree(s: string, prefix: string)
    ensures match Go.Parse(prefix, s)
            case Ok(id) => ParseId(s, Some(prefix)) == Ok(ParsedId(prefix, ToHyphenated(id.uuid)))
            case Err(_) => ParseId(s, Some(prefix)).Err?
  {
    hide Go.Decode, Go.ValidatePrefix, IsValidPrefix, ToHyphenated;
    ParsersAgree(s);
  }

  /** Formatting a UUID in any accepted spelling and parsing it back gives its canonical spelling. */
  lemma FormatThenParse(prefix: string, uuid: string)
    ensures FormatId(prefix, uuid).Ok? <==> IsValidPrefix(prefix) && IsUuidText(uuid)
    ensures FormatId(prefix, uuid).Ok? ==>
      ParseId(FormatId(prefix, uuid).value, Some(prefix)) == Ok(ParsedId(prefix, Hyphenate(HexDigits(uuid))))
  {
    hide Go.Decode, Go.Encode, Go.ValidatePrefix, IsValidPrefix, IsHex, BytesOfHex, HexDigits, HexOf, Hyphenate;
    if IsValidPrefix(prefix) && IsUuidText(uuid) {
      var u: UUID := BytesOfHex(HexDigits(uuid));
      var suffix := Go.Encode(u);
      var s := prefix + "_" + suffix;
      Go.EncodeSpelling(u);
      Go.SplitAtSeparator(prefix, suffix);
      assert s[..|prefix|] == prefix && s[|prefix| + 1..] == suffix;
      Go.DecodeInvertsEncode(suffix, u);
      HexRoundTrip(HexDigits(uuid));
    }
  }

  /** Parsing and formatting back gives the same wire string. */
  lemma ParseThenFormat(s: string)
    requires ParseId(s, None).Ok?
    ensures var parsed := ParseId(s, None).value;
      FormatId(parsed.prefix, parsed.uuid) == Ok(s)
  {
    hide Go.Decode, Go.Encode, Go.ParseAny, Go.ValidatePrefix, ParseId, IsValidPrefix, IsUuidText, BytesOfHex, HexDigits, ToHyphenated;
    ParsersAgree(s);
    var id := Go.ParseAny(s).value;
    Go.ParseInvertsToString(s, id);
    PrefixAgreement(id.prefix);
    CanonicalText(id.uuid);
    Go.EmptyPrefixInvalid();
  }
}
