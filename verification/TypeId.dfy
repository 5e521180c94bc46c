/** The Go identifier package: a type prefix, an underscore, and 26 base-32 characters for a UUID. A string is the bytes
    of a Go string, one character for each byte. */
module TypeId {
  import opened Wrappers
  import opened Bytes
  import opened Numerals
  import opened Bits
  import opened Names
  import opened Text

  const ALPHABET: string := "0123456789abcdefghjkmnpqrstvwxyz"
  const ENCODED_LEN := 26
  const MAX_PREFIX_LEN := 63

  datatype Error =
    | EmptyPrefix | PrefixTooLong | PrefixCharset | MissingPrefix
    | SuffixLength | SuffixCharset | SuffixRange | PrefixMismatch

  /** The table entry of a character; 0xff marks one outside the alphabet. */
  function DecodeTable(c: char): bv8 {
    var i := IndexIn(ALPHABET, c);
    if i < 32 then i as bv8 else 0xff
  }

  lemma AlphabetAt(i: nat)
    ensures |ALPHABET| == 32
    ensures i < 10 ==> ALPHABET[i] as nat == '0' as nat + i
    ensures 10 <= i < 18 ==> ALPHABET[i] as nat == 'a' as nat + (i - 10)
    ensures 18 <= i < 20 ==> ALPHABET[i] as nat == 'j' as nat + (i - 18)
    ensures 20 <= i < 22 ==> ALPHABET[i] as nat == 'm' as nat + (i - 20)
    ensures 22 <= i < 27 ==> ALPHABET[i] as nat == 'p' as nat + (i - 22)
    ensures 27 <= i < 32 ==> ALPHABET[i] as nat == 'v' as nat + (i - 27)
  {
  }

  lemma AlphabetAscends(i: nat, j: nat)
    requires i < j < 32
    ensures |ALPHABET| == 32 && ALPHABET[i] < ALPHABET[j]
  {
    hide ALPHABET;
    AlphabetAt(i);
    AlphabetAt(j);
  }

  lemma TableInvertsAlphabet(i: nat)
    requires i < 32
    ensures DecodeTable(ALPHABET[i]) == i as bv8
  {
    var k := IndexIn(ALPHABET, ALPHABET[i]);
    if k > i {
      assert false;
    }
    if k < i {
      AlphabetAscends(k, i);
      assert false;
    }
  }

  predicate InAlphabet(c: char) {
    c in ALPHABET
  }

  lemma TableValue(c: char)
    ensures DecodeTable(c) == 0xff <==> !InAlphabet(c)
    ensures InAlphabet(c) ==> DecodeTable(c) < 32 && ALPHABET[DecodeTable(c)] == c
  {
    var i := IndexIn(ALPHABET, c);
    if i < 32 {
      SmallByte(i);
    }
  }

  /** Crockford's base 32 in lower case: the digits and the letters without i, l, o and u. */
  predicate IsCrockford(c: char) {
    '0' <= c <= '9' || ('a' <= c <= 'z' && c != 'i' && c != 'l' && c != 'o' && c != 'u')
  }

  /** The place of a character: letters follow the digits, and each of the four left out moves the later ones down. */
  function CrockfordValue(c: char): nat
    requires IsCrockford(c)
  {
    if c <= '9' then c as nat - '0' as nat
    else
      c as nat - 'a' as nat + 10
      - (if c > 'i' then 1 else 0) - (if c > 'l' then 1 else 0) - (if c > 'o' then 1 else 0) - (if c > 'u' then 1 else 0)
  }

  lemma TableIsCrockford(c: char)
    ensures InAlphabet(c) <==> IsCrockford(c)
    ensures InAlphabet(c) ==> DecodeTable(c) as nat == CrockfordValue(c)
  {
    hide DecodeTable, ALPHABET;
    if IsCrockford(c) {
      AlphabetAt(CrockfordValue(c));
      TableInvertsAlphabet(CrockfordValue(c));
      SmallByte(CrockfordValue(c));
    }
    if InAlphabet(c) {
      var i :| 0 <= i < |ALPHABET| && ALPHABET[i] == c;
      AlphabetAt(i);
    }
  }

  // ---- the suffix ----

  /** The characters of a digit sequence. */
  function Spell(digits: seq<nat>): (s: string)
    requires AreDigits(digits, 32)
  {
    seq(|digits|, i requires 0 <= i < |digits| => ALPHABET[digits[i]])
  }

  /** The digits of a suffix. */
  function Unspell(s: string): (digits: seq<nat>)
  {
    seq(|s|, i requires 0 <= i < |s| => DecodeTable(s[i]) as nat)
  }

  /** The 26-digit base-32 numeral of the 128-bit number, spelt in the alphabet. */
  function Encode(u: UUID): string {
    Spell(Digits(Number(u), 32, ENCODED_LEN))
  }

  predicate AllInAlphabet(s: string) {
    forall k :: 0 <= k < |s| ==> InAlphabet(s[k])
  }

  /** The UUID whose number the suffix denotes, or why there is none. */
  function Decode(s: string): Result<UUID, Error> {
    if |s| != ENCODED_LEN then Err(SuffixLength)
    else if !InAlphabet(s[0]) then Err(SuffixCharset)
    else if DecodeTable(s[0]) > 7 then Err(SuffixRange)
    else if !AllInAlphabet(s) then Err(SuffixCharset)
    else Ok(FromNumber(Value(Unspell(s), 32)))
  }

  predicate AllCrockford(s: string) {
    forall k :: 0 <= k < |s| ==> IsCrockford(s[k])
  }

  function CrockfordDigits(s: string): seq<nat>
    requires AllCrockford(s)
  {
    seq(|s|, k requires 0 <= k < |s| => CrockfordValue(s[k]))
  }

  /** The suffix is the 26-digit numeral of the UUID's number in Crockford's base 32. */
  ghost predicate Denotes(s: string, u: UUID) {
    |s| == 26 && AllCrockford(s) && Value(CrockfordDigits(s), 32) == Number(u)
  }

  /** What reading a suffix gives: the UUID that it denotes, or why it denotes none. */
  ghost predicate IsReading(s: string, r: Result<UUID, Error>) {
    && (forall u: UUID :: r == Ok(u) <==> Denotes(s, u))
    && (r == Err(SuffixLength) <==> |s| != 26)
    && (r == Err(SuffixRange) <==> |s| == 26 && IsCrockford(s[0]) && s[0] > '7')
    && (r.Ok? || r.error in {SuffixLength, SuffixRange, SuffixCharset})
  }

  /** The bit walk of `encode` computes the positional numeral. */
  method EncodeByBits(u: UUID) returns (s: string)
    ensures s == Encode(u) && Denotes(s, u)
  {
    EncodeDenotes(Encode(u), u);
    hide BitOf, GroupValue, Encode, Denotes;
    var out := new char[26](_ => '0');
    ghost var wanted := Encode(u);
    FirstCharacterOf(u);
    out[0] := ALPHABET[(u[0] & 0xe0) >> 5];
    var bit := 3;
    for i := 1 to 26
      invariant bit == 5 * i - 2
      invariant forall k :: 0 <= k < i ==> out[k] == wanted[k]
    {
      var v;
      v, bit := NextGroup(u, bit);
      NextCharacter(u, i);
      out[i] := ALPHABET[v];
    }
    assert out[..] == wanted;
    s := out[..];
  }

  lemma FirstCharacterOf(u: UUID)
    ensures |Encode(u)| == 26
    ensures ((u[0] & 0xe0) >> 5) as nat < 32 && Encode(u)[0] == ALPHABET[(u[0] & 0xe0) >> 5]
  {
    hide Encode, Digit;
    SpelledDigits(u);
    FirstGroup(u);
  }

  lemma NextCharacter(u: UUID, i: nat)
    requires 1 <= i < 26
    ensures GroupValue(u, 5 * i - 2, 5) < 32 && |Encode(u)| == 26
    ensures Encode(u)[i] == ALPHABET[GroupValue(u, 5 * i - 2, 5)]
  {
    hide GroupValue, Encode;
    SpelledDigits(u);
    assert Digit(u, i) == GroupValue(u, 5 * i - 2, 5);
  }

  lemma SpelledDigits(u: UUID)
    ensures |Encode(u)| == 26
    ensures forall i :: 0 <= i < 26 ==> Digit(u, i) < 32 && Encode(u)[i] == ALPHABET[Digit(u, i)]
  {
    RegroupedNumeral(u);
    DigitsInRange(u);
    assert forall i :: 0 <= i < 26 ==> DigitsOf(u)[i] == Digit(u, i);
  }

  lemma FirstGroup(u: UUID)
    ensures ((u[0] & 0xe0) >> 5) as nat == Digit(u, 0) < 8
  {
    TopBits(u[0]);
    ValueOfThree(BitsOf(u)[0..3]);
  }

  /** The bits that the first m characters of a suffix spell. */
  function SpeltBits(s: string, m: nat): (bits: seq<nat>)
    requires 1 <= m <= |s|
    ensures |bits| == 5 * m - 2
  {
    if m == 1 then LowThree(DecodeTable(s[0])) else SpeltBits(s, m - 1) + LowFive(DecodeTable(s[m - 1]))
  }

  /** The bit loop of `decode` inverts the numeral, and rejects exactly what Decode rejects. */
  method DecodeByBits(s: string) returns (r: Result<UUID, Error>)
    ensures r == Decode(s) && IsReading(s, r)
  {
    DecodeReads(s);
    hide BitOf, DecodeTable, InAlphabet, SpeltBits, IsReading;
    assert ENCODED_LEN == 26;
    if |s| != ENCODED_LEN {
      return Err(SuffixLength);
    }
    var first := DecodeTable(s[0]);
    TableValue(s[0]);
    if first == 0xff {
      return Err(SuffixCharset);
    }
    if first > 7 {
      return Err(SuffixRange);
    }
    var u := new bv8[16](_ => 0);
    u[0] := first << 5;
    FirstByteBits(u[..], first);
    FirstSpelt(s);
    var bit := 3;
    for i := 1 to ENCODED_LEN
      invariant bit == 5 * i - 2
      invariant AllInAlphabet(s[..i])
      invariant BitsOf(u[..]) == SpeltBits(s, i) + Zeros(128 - bit)
    {
      var v := DecodeTable(s[i]);
      TableValue(s[i]);
      if v == 0xff {
        return Err(SuffixCharset);
      }
      ghost var before := BitsOf(u[..]);
      bit := OrGroup(u, v, bit);
      FilledOneMore(s, i, before, BitsOf(u[..]));
    }
    assert s[..26] == s;
    SpeltBitsDecode(s, u[..]);
    r := Ok(u[..]);
  }

  lemma FirstSpelt(s: string)
    requires |s| > 0
    ensures SpeltBits(s, 1) == LowThree(DecodeTable(s[0]))
  {
  }

  lemma FilledOneMore(s: string, i: nat, before: seq<nat>, after: seq<nat>)
    requires |s| == ENCODED_LEN && 1 <= i < 26 && AllInAlphabet(s[..i]) && InAlphabet(s[i])
    requires |before| == 128 && before == SpeltBits(s, i) + Zeros(128 - (5 * i - 2))
    requires after == before[..5 * i - 2] + LowFive(DecodeTable(s[i])) + before[5 * i + 3..]
    ensures AllInAlphabet(s[..i + 1])
    ensures after == SpeltBits(s, i + 1) + Zeros(128 - (5 * i + 3))
  {
    hide BitOf, DecodeTable, InAlphabet, LowFive;
    assert s[..i + 1] == s[..i] + [s[i]];
    assert before[..5 * i - 2] == SpeltBits(s, i);
    assert before[5 * i + 3..] == Zeros(128 - (5 * i + 3));
  }

  lemma {:induction false} SpeltValue(s: string, m: nat)
    requires AllInAlphabet(s) && 1 <= m <= |s| && DecodeTable(s[0]) < 8
    ensures Value(SpeltBits(s, m), 2) == Value(Unspell(s)[..m], 32)
  {
    hide BitOf, DecodeTable, InAlphabet, LowFive, LowThree, Value, Pow;
    var v := DecodeTable(s[m - 1]);
    assert InAlphabet(s[m - 1]);
    TableValue(s[m - 1]);
    LowBitsValue(v);
    ValueOfPrefix(Unspell(s), m, 32);
    if m == 1 {
      assert Unspell(s)[..0] == [] && Value([], 32) == 0 by { ValueOfNothing(32); }
    } else {
      SpeltValue(s, m - 1);
      ValueOfConcat(SpeltBits(s, m - 1), LowFive(v), 2);
      PowersOfTwo();
    }
  }

  lemma SpeltBitsDecode(s: string, u: UUID)
    requires |s| == ENCODED_LEN && AllInAlphabet(s) && DecodeTable(s[0]) <= 7
    requires BitsOf(u) == SpeltBits(s, 26)
    ensures Decode(s) == Ok(u)
  {
    hide BitsOf, SpeltBits, DecodeTable, InAlphabet, Value, Number, FromNumber;
    assert InAlphabet(s[0]);
    SpeltValue(s, 26);
    assert Unspell(s)[..26] == Unspell(s);
    NumberOfBits(u);
    NumberInjective(u);
  }

  // ---- laws of the suffix ----

  lemma SuffixCapacity()
    ensures 8 * Pow(32, 25) == Pow(256, 16)
  {
    assert Pow(32, 5) == 0x200_0000;
    PowAdd(32, 5, 5);
    PowAdd(32, 10, 10);
    PowAdd(32, 20, 5);
    assert Pow(256, 2) == 0x1_0000;
    PowAdd(256, 2, 2);
    PowAdd(256, 4, 4);
    PowAdd(256, 8, 8);
  }

  lemma NumberOfFromNumber(n: nat)
    requires n < Pow(256, 16)
    ensures Number(FromNumber(n)) == n
  {
    hide Digits;
    NumberOfBytes(FromNumber(n));
    var digits := Digits(n, 256, 16);
    forall k | 0 <= k < 16 ensures BytesAsNats(FromNumber(n))[k] == digits[k] {
      ByteOfNat(digits[k]);
    }
    assert BytesAsNats(FromNumber(n)) == digits;
    DigitsHaveValue(n, 256, 16);
  }

  lemma SpeltNumberFits(s: string)
    requires |s| == 26 && AllInAlphabet(s) && DecodeTable(s[0]) <= 7
    ensures AreDigits(Unspell(s), 32)
    ensures Value(Unspell(s), 32) < Pow(256, 16)
  {
    hide DecodeTable, InAlphabet;
    forall k | 0 <= k < 26 ensures Unspell(s)[k] < 32 {
      TableValue(s[k]);
    }
    var digits := Unspell(s);
    assert digits == [digits[0]] + digits[1..];
    ValueOfConcat([digits[0]], digits[1..], 32);
    ValueBound(digits[1..], 32);
    assert Value([digits[0]], 32) == digits[0] by { assert [digits[0]][..0] == []; }
    MulMonotone(digits[0], 7, Pow(32, 25));
    SuffixCapacity();
  }

  lemma SpellUnspell(s: string)
    requires AllInAlphabet(s) && AreDigits(Unspell(s), 32)
    ensures Spell(Unspell(s)) == s
  {
    hide DecodeTable, InAlphabet;
    forall k | 0 <= k < |s| ensures Spell(Unspell(s))[k] == s[k] {
      TableValue(s[k]);
    }
  }

  lemma UnspellSpell(digits: seq<nat>)
    requires AreDigits(digits, 32)
    ensures AllInAlphabet(Spell(digits)) && Unspell(Spell(digits)) == digits
  {
    hide DecodeTable;
    forall k | 0 <= k < |digits|
      ensures InAlphabet(Spell(digits)[k]) && Unspell(Spell(digits))[k] == digits[k]
    {
      TableInvertsAlphabet(digits[k]);
      SmallByte(digits[k]);
    }
  }

  lemma EncodeSpelling(u: UUID)
    ensures Unspell(Encode(u)) == DigitsOf(u) && AllInAlphabet(Encode(u))
    ensures |Encode(u)| == 26 && DecodeTable(Encode(u)[0]) <= 7
  {
    hide DecodeTable, Digit, Digits, InAlphabet;
    RegroupedNumeral(u);
    UnspellSpell(DigitsOf(u));
    DigitInRange(u, 0);
    assert Unspell(Encode(u))[0] == Digit(u, 0);
  }

  /** Decoding is the exact inverse of encoding: it accepts the encodings and nothing else. */
  lemma DecodeInvertsEncode(s: string, u: UUID)
    ensures Decode(s) == Ok(u) <==> Encode(u) == s
  {
    hide DecodeTable, Digits, InAlphabet;
    if Encode(u) == s {
      EncodeSpelling(u);
      RegroupedNumeral(u);
      NumberInjective(u);
    }
    if Decode(s) == Ok(u) {
      SpeltNumberFits(s);
      NumberOfFromNumber(Value(Unspell(s), 32));
      NumeralOfValue(Unspell(s), 32);
      SpellUnspell(s);
    }
  }

  lemma CrockfordIsAlphabet(s: string)
    ensures AllInAlphabet(s) <==> AllCrockford(s)
    ensures AllCrockford(s) ==> Unspell(s) == CrockfordDigits(s) && AreDigits(Unspell(s), 32)
  {
    hide DecodeTable, InAlphabet, IsCrockford, CrockfordValue;
    forall k | 0 <= k < |s|
      ensures InAlphabet(s[k]) <==> IsCrockford(s[k])
      ensures InAlphabet(s[k]) ==> DecodeTable(s[k]) as nat == CrockfordValue(s[k]) < 32
    {
      TableIsCrockford(s[k]);
      TableValue(s[k]);
    }
  }

  lemma EncodeDenotes(s: string, u: UUID)
    ensures Encode(u) == s <==> Denotes(s, u)
  {
    hide DecodeTable, Digits, Digit, InAlphabet, IsCrockford, CrockfordValue, CrockfordDigits, Number, Value;
    CrockfordIsAlphabet(s);
    RegroupedNumeral(u);
    if Encode(u) == s {
      EncodeSpelling(u);
    }
    if Denotes(s, u) {
      NumeralOfValue(Unspell(s), 32);
      SpellUnspell(s);
    }
  }

  lemma DecodeReads(s: string)
    ensures IsReading(s, Decode(s))
  {
    hide DecodeTable, InAlphabet, IsCrockford, Encode, Denotes, FromNumber, Unspell, AllInAlphabet;
    forall u: UUID ensures Decode(s) == Ok(u) <==> Denotes(s, u) {
      DecodeInvertsEncode(s, u);
      EncodeDenotes(s, u);
    }
    if |s| == 26 {
      TableIsCrockford(s[0]);
      if InAlphabet(s[0]) {
        FirstCharacter(s[0]);
      }
    }
  }

  /** The accepted suffixes: 26 digits and lower-case letters without i, l, o and u, the first at most '7'. */
  lemma AcceptedSuffixes(s: string)
    ensures Decode(s).Ok? <==>
      && |s| == 26 && s[0] <= '7'
      && forall k :: 0 <= k < 26 ==> '0' <= s[k] <= '9' || ('a' <= s[k] <= 'z' && s[k] !in "ilou")
    ensures Decode(s).Ok? <==> exists u: UUID :: Encode(u) == s
  {
    hide DecodeTable, InAlphabet, Encode, FromNumber, Unspell;
    CrockfordIsAlphabet(s);
    if |s| == 26 && InAlphabet(s[0]) {
      FirstCharacter(s[0]);
    }
    if Decode(s).Ok? {
      DecodeInvertsEncode(s, Decode(s).value);
    }
    if u: UUID :| Encode(u) == s {
      DecodeInvertsEncode(s, u);
    }
  }

  lemma FirstCharacter(c: char)
    requires InAlphabet(c)
    ensures DecodeTable(c) <= 7 <==> c <= '7'
  {
    hide InAlphabet, DecodeTable;
    TableValue(c);
    var d := DecodeTable(c) as nat;
    if d < 7 {
      AlphabetAscends(d, 7);
    }
    if d > 7 {
      AlphabetAscends(7, d);
    }
    assert ALPHABET[7] == '7';
  }

  lemma SpellKeepsOrder(a: seq<nat>, b: seq<nat>)
    requires AreDigits(a, 32) && AreDigits(b, 32) && LexLess(a, b)
    ensures Less(Spell(a), Spell(b))
  {
    var k :| 0 <= k < |a| && k < |b| && a[..k] == b[..k] && a[k] < b[k];
    AlphabetAscends(a[k], b[k]);
    forall j | 0 <= j < k ensures Spell(a)[j] == Spell(b)[j] {
      assert a[..k][j] == b[..k][j];
    }
    assert Spell(a)[..k] == Spell(b)[..k];
    LessAt(Spell(a), Spell(b), k);
  }

  /** The wire order of suffixes is the numeric order of the UUIDs, and their byte order. */
  lemma OrderPreserved(u: UUID, v: UUID)
    ensures Less(Encode(u), Encode(v)) <==> Number(u) < Number(v)
    ensures LexLess(BytesAsNats(u), BytesAsNats(v)) <==> Number(u) < Number(v)
  {
    hide Digits, Digit, Number, Value, BytesAsNats, LexLess, Less;
    var a, b := DigitsOf(u), DigitsOf(v);
    RegroupedNumeral(u);
    RegroupedNumeral(v);
    OrderOfValues(a, b, 32);
    OrderOfValues(b, a, 32);
    LessIsAsymmetric(Encode(u), Encode(v));
    if LexLess(a, b) {
      SpellKeepsOrder(a, b);
    } else if LexLess(b, a) {
      SpellKeepsOrder(b, a);
    } else {
      NumeralOfValue(a, 32);
      NumeralOfValue(b, 32);
      LessIsStrict(Encode(u));
    }
    NumberOfBytes(u);
    NumberOfBytes(v);
    OrderOfValues(BytesAsNats(u), BytesAsNats(v), 256);
  }

  // ---- whole identifiers ----

  datatype ID = ID(prefix: string, uuid: UUID)

  predicate PrefixChar(c: char) {
    'a' <= c <= 'z' || c == '_'
  }

  /** The error a prefix causes, in the order of the checks. */
  function ValidatePrefix(prefix: string): Option<Error> {
    if prefix == "" then Some(EmptyPrefix)
    else if |prefix| > MAX_PREFIX_LEN then Some(PrefixTooLong)
    else if prefix[0] == '_' || prefix[|prefix| - 1] == '_' then Some(PrefixCharset)
    else if exists k :: 0 <= k < |prefix| && !PrefixChar(prefix[k]) then Some(PrefixCharset)
    else None
  }

  method CheckPrefix(prefix: string) returns (e: Option<Error>)
    ensures e == ValidatePrefix(prefix)
  {
    if prefix == "" {
      return Some(EmptyPrefix);
    }
    if |prefix| > MAX_PREFIX_LEN {
      return Some(PrefixTooLong);
    }
    if prefix[0] == '_' || prefix[|prefix| - 1] == '_' {
      return Some(PrefixCharset);
    }
    for i := 0 to |prefix|
      invariant forall k :: 0 <= k < i ==> PrefixChar(prefix[k])
    {
      if (prefix[i] < 'a' || prefix[i] > 'z') && prefix[i] != '_' {
        return Some(PrefixCharset);
      }
    }
    e := None;
  }

  /** The valid prefixes: 1 to 63 small letters and underscores, no underscore at either end. */
  lemma ValidPrefixes(prefix: string)
    ensures ValidatePrefix(prefix) == None <==>
      && 1 <= |prefix| <= 63 && prefix[0] != '_' && prefix[|prefix| - 1] != '_'
      && forall k :: 0 <= k < |prefix| ==> 'a' <= prefix[k] <= 'z' || prefix[k] == '_'
    ensures ValidatePrefix(prefix) == Some(EmptyPrefix) <==> prefix == ""
    ensures ValidatePrefix(prefix) == Some(PrefixTooLong) <==> |prefix| > 63
    ensures ValidatePrefix(prefix) in {None, Some(EmptyPrefix), Some(PrefixTooLong), Some(PrefixCharset)}
  {
  }

  function From(prefix: string, u: UUID): Result<ID, Error> {
    match ValidatePrefix(prefix)
    case Some(e) => Err(e)
    case None => Ok(ID(prefix, u))
  }

  function ParseAny(s: string): Result<ID, Error> {
    var sep := LastIndex(s, '_');
    if sep < 0 then Err(MissingPrefix)
    else match ValidatePrefix(s[..sep])
      case Some(e) => Err(e)
      case None =>
        match Decode(s[sep + 1..])
        case Err(e) => Err(e)
        case Ok(u) => Ok(ID(s[..sep], u))
  }

  function Parse(prefix: string, s: string): Result<ID, Error> {
    match ParseAny(s)
    case Err(e) => Err(e)
    case Ok(id) => if id.prefix != prefix then Err(PrefixMismatch) else Ok(id)
  }

  function ToString(id: ID): string {
    if id.prefix == "" then "" else id.prefix + "_" + Encode(id.uuid)
  }

  lemma AlphabetHasNoSeparator(c: char)
    requires InAlphabet(c)
    ensures c != '_'
  {
  }

  lemma SplitAtSeparator(prefix: string, suffix: string)
    requires AllInAlphabet(suffix)
    ensures LastIndex(prefix + "_" + suffix, '_') == |prefix|
  {
    hide InAlphabet, LastIndex;
    var s := prefix + "_" + suffix;
    assert |s| == |prefix| + 1 + |suffix| && s[|prefix|] == '_';
    forall k | |prefix| < k < |s| ensures s[k] != '_' {
      assert s[k] == suffix[k - |prefix| - 1] && InAlphabet(suffix[k - |prefix| - 1]);
      AlphabetHasNoSeparator(s[k]);
    }
    LastIndexIs(s, '_', |prefix|);
  }

  /** ParseAny accepts exactly the wire forms of identifiers with a valid prefix. */
  lemma ParseInvertsToString(s: string, id: ID)
    ensures ParseAny(s) == Ok(id) <==> ValidatePrefix(id.prefix) == None && ToString(id) == s
  {
    hide Decode, Encode, ValidatePrefix, AllInAlphabet;
    var sep := LastIndex(s, '_');
    if sep >= 0 {
      DecodeInvertsEncode(s[sep + 1..], id.uuid);
      assert s == s[..sep] + "_" + s[sep + 1..];
    }
    EmptyPrefixInvalid();
    if ValidatePrefix(id.prefix) == None && ToString(id) == s {
      EncodeSpelling(id.uuid);
      SplitAtSeparator(id.prefix, Encode(id.uuid));
      assert s[..sep] == id.prefix && s[sep + 1..] == Encode(id.uuid);
    }
  }

  /** A text is cut at its last underscore, the prefix is judged before the suffix, and the type last of all. */
  lemma ParseErrors(prefix: string, suffix: string, wanted: string)
    requires '_' !in suffix
    ensures ParseAny(suffix) == Err(MissingPrefix)
    ensures ValidatePrefix(prefix).Some? ==> ParseAny(prefix + "_" + suffix) == Err(ValidatePrefix(prefix).value)
    ensures ValidatePrefix(prefix) == None && Decode(suffix).Err? ==>
      ParseAny(prefix + "_" + suffix) == Err(Decode(suffix).error)
    ensures ValidatePrefix(prefix) == None && Decode(suffix).Ok? ==>
      ParseAny(prefix + "_" + suffix) == Ok(ID(prefix, Decode(suffix).value))
    ensures Parse(wanted, suffix) == Err(MissingPrefix)
    ensures Parse(wanted, prefix + "_" + suffix) ==
      if ParseAny(prefix + "_" + suffix).Ok? && wanted != prefix then Err(PrefixMismatch)
      else ParseAny(prefix + "_" + suffix)
  {
    hide Decode, ValidatePrefix, LastIndex;
    var s := prefix + "_" + suffix;
    assert s[|prefix|] == '_' && s[..|prefix|] == prefix && s[|prefix| + 1..] == suffix;
    LastIndexIs(s, '_', |prefix|);
  }

  lemma EmptyPrefixInvalid()
    ensures ValidatePrefix("") != None
  {
  }

  /** Reading back the wire form restores an identifier exactly when its prefix is valid;
      the zero value, whose wire form is empty, is the one constructible exception. */
  lemma TextRoundTrip(id: ID)
    ensures ParseAny(ToString(id)) == Ok(id) <==> ValidatePrefix(id.prefix) == None
    ensures id.prefix == "" ==> ParseAny(ToString(id)) == Err(MissingPrefix)
  {
    ParseInvertsToString(ToString(id), id);
  }

  /** The expected type admits its own identifiers only. */
  lemma ParseChecksType(prefix: string, s: string, id: ID)
    ensures Parse(prefix, s) == Ok(id) <==> From(prefix, id.uuid) == Ok(id) && ToString(id) == s
  {
    ParseInvertsToString(s, id);
  }

  /** The variable that UnmarshalText overwrites. */
  class Target {
    var value: ID

    constructor (id: ID)
      ensures value == id
    {
      value := id;
    }

    method UnmarshalText(text: string) returns (e: Option<Error>)
      modifies this
      ensures match ParseAny(text)
              case Ok(id) => e == None && value == id
              case Err(error) => e == Some(error) && value == old(value)
    {
      var parsed := ParseAny(text);
      if parsed.Err? {
        return Some(parsed.error);
      }
      value := parsed.value;
      e := None;
    }
  }
}
