# Verified models of the platform's core algorithms

This project models the self-contained algorithms of the platform template and proves what each of them promises:

- the prefixed identifiers of the Go and TypeScript libraries (the TypeID form: a type prefix and 26 Crockford
  base-32 characters for a 128-bit UUID), including the bit loops of both;
- the money type: fixed-point amounts, three rounding modes, exact splitting, rates, decimal text, JSON and SQL forms;
- the schema compiler `zod-gen`: what it collects, in which order it declares it, and what the declarations accept;
- the `shared-components` generator: reachability over references, region splicing, and generate-then-check;
- the Temporal schedule reconciler, as a run of calls to a cluster that may fail at any call;
- the generated radix router of the analytics service, against a plain table of path patterns;
- the error-message normaliser (Go and TypeScript), the class rewrite of the i18n gate, the call-layout autofix of
  `gostyle`, and the identity headers of `authmw`.

Code that updates state is a method or a class here, proved equal to a specification function; the lemmas then say what
that function means. One module stands in one file of the same name. `Wrappers`, `Bytes`, `Text`, `Numerals`, `Lines`
and `Names` hold shared vocabulary (`Result`, positional numerals, line splitting, names in byte order); every other
module follows one source component.

`dafny verify dfyconfig.toml` checks the whole project.

## What the proofs found

Where the code and a comment or a promise disagree, the model follows the code, and a lemma gives the exact condition.

- `libs/go/temporalmw/schedules.go:15-16` says that a reconcile never deletes a schedule without the owner key. That holds
  exactly for a non-empty owner (`Schedules.UnmarkedSurviveIffOwnerNamed`): an unmarked schedule reads as owned by "".
- Generate-then-check of `shared-components` is a no-op exactly when the two regions are not nested, or a later schemas
  region holds the block already (`SharedComponents.SecondRunIffSettled`). With one begin mark for each region only the
  nesting decides (`SharedComponents.SecondRunIffNotNested`, with `SharedComponents.NestedExample`).
- The components of a `zod-gen` module follow everything they reference exactly when the references have no cycle
  (`ZodGen.DeclaredBeforeUseIffAcyclic`); on a cycle no order at all would do. Not every reference is rendered, though. With
  distinct constants each line of a module uses only earlier ones exactly when every rendered reference on a cycle goes to a
  greater name (`ZodGen.ModuleUsesEarlierIff`, `ZodGen.BackwardReference`). The comment at `tools/zod-gen/main.go:187`
  says that ties sort alphabetically; the names of a cycle stand in descending order (`ZodGen.MatesDescend`).
- The constants of a module are distinct exactly when the needed names stay different under the lower-casing of their first
  byte, the operation ids differ, and no operation id is a needed name so lower-cased (`ZodGen.ModuleConstantsDistinct`). The
  components "Money" and "money" collide (`ZodGen.CollidingConstants`), so do "Ä" and "Ą", whose first bytes both become
  U+FFFD (`ZodGen.CollidingLetters`), and so do the component "CreateOrder" and the operation "createOrder"
  (`ZodGen.OperationTakesConstant`). A name with a dash or a dot, which a reference may hold, is no identifier, and its
  constant is none (`ZodGen.ModuleConstantsBare`). `ZodGen.ModuleLoadsIff` puts these conditions together.
- The comment on `zodOf` says that it returns an error on a construct that it cannot represent exactly. A required member
  without a property is such a construct: the expression does not ask for it and there is no error. Expressions accept every
  conforming value, and exactly those if and only if each required member is declared (`ZodGen.AcceptsConforming`,
  `ZodGen.AcceptsExactlyIff`).
- A reconcile updates a schedule of another owner that its file names and leaves the owner key. So an entry that is dropped
  later is deleted exactly when its id was new or the owner's own (`Schedules.DroppedIsDeletedIff`).
- The comment on `Split` promises the remainder "one minor unit at a time", and the missing cent to one part. The code
  hands out internal units of a hundredth of a cent: 10.00 in three gives 3.3334, 3.3333 and 3.3333 (`Money.SplitOfTen`). All
  parts are whole minor units exactly when nothing remains and the truncated part is one (`Money.WholeMinorUnitsIff`).
- `libs/go/money/sql.go:22-23` says that a scanned amount carries no currency. It carries the placeholder "XXX" until
  `WithCurrency` replaces it, whoever wrote the column, unless the column is NULL (`MoneySql.ScannedCurrency`). The comment
  on `MarshalJSON` shows "1299.00"; the text of that amount is "1299" (`Decimal.FormatIsCanonical`).
- The comment on `normalise` says that a run of four or more letters and digits becomes `<x>`. The code also asks for at
  least one letter and one digit (`Normalise.MergesExactly`).
- Forwarding identity headers keeps a header that was already on the request where the caller has no value for it
  (`Roles.IdentitySurvivesHop`, `Roles.StaleHeaderIsForwarded`), and a bracket at either end of the role list is lost
  (`Roles.CommaRoundTrip`). A context without a principal sends none, says the comment, so the callee sees an anonymous
  request; that is so exactly when the request itself holds no identity (`Roles.AnonymousIff`).
- `explodeEdits` adds a comma also where one already stands before a closing paren on the same line, which gofmt would have
  removed; two commas do not parse (`CallLayout.TrailingCommaExample`). After a fix one comma follows the last argument
  exactly when none stood there on the line of the closing paren, or one did before a paren on a later line
  (`CallLayout.OneCommaIff`). After all fixes of a file its commas are in order exactly when no reported call had such a
  comma (`CallLayout.SoundAfterFixesIff`).

## Model

| member | source | states |
|---|---|---|
| `Numerals.OrderOfValues` | libs/go/id/id.go:186-205 | Of two numerals with the same number of digits, the lexicographically smaller one denotes the smaller number, and conversely |
| `Numerals.NumeralOfValue` | libs/go/id/id.go:186-205 | A numeral is the only one of its length with its value |
| `Bits.NextGroup` | libs/go/id/id.go:196-201 | The inner loop of encoding reads the value of the next five bits across byte boundaries |
| `Bits.OrGroup` | libs/go/id/id.go:231-235 | The inner loop of decoding writes five bits of the 128 and changes no other bit |
| `Bits.RegroupedNumeral` | libs/go/id/id.go:186-205 | The 3 + 25 × 5 bit groups of a UUID are the 26 digits of the base-32 numeral of its big-endian 128-bit number |
| `Bits.NumberOfBits` | libs/go/id/id.go:192-194 | The bytes and the 128 bits, both read most significant first, denote the same number |
| `Bits.NumberInjective` | libs/go/id/id.go:186-205 | A UUID is determined by its number |
| `TypeId.EncodeByBits` | libs/go/id/id.go:187-205 | The bit-offset loop gives, for every 16 bytes, the 26-digit numeral of their number in Crockford's base 32: digits, then the small letters without i, l, o and u |
| `TypeId.DecodeByBits` | libs/go/id/id.go:207-238 | The bit-offset loop gives exactly the UUID whose number the suffix denotes in that base; the length error exactly for a length other than 26, the range error exactly for a first character above 7, and otherwise the character error |
| `TypeId.DecodeInvertsEncode` | libs/go/id/id.go:187-238 | A suffix decodes to a UUID if and only if that UUID encodes to the suffix |
| `TypeId.AcceptedSuffixes` | libs/go/id/id.go:207-230 | The accepted suffixes are exactly the texts of 26 digits and small letters other than i, l, o and u whose first character is at most 7, and exactly the encodings |
| `TypeId.TableIsCrockford` | libs/go/id/id.go:12-45 | A character is in the table if and only if it is a digit or a small letter other than i, l, o and u, and its entry is its place among them |
| `TypeId.EncodeDenotes` | libs/go/id/id.go:187-205 | A suffix is the encoding of a UUID if and only if it has 26 characters of that base that spell its number |
| `TypeId.OrderPreserved` | libs/go/id/id.go:186-205 | Byte order of the encodings, of the UUID bytes and of the 128-bit numbers is the same order |
| `TypeId.CheckPrefix` | libs/go/id/id.go:135-154 | The prefix check as a loop agrees with its specification, error by error |
| `TypeId.ValidPrefixes` | libs/go/id/id.go:135-154 | A prefix is valid if and only if it is 1 to 63 small letters and underscores with no underscore at an end; which error the others cause |
| `TypeId.ParseInvertsToString` | libs/go/id/id.go:117-169 | Reading a string gives an identifier if and only if its prefix is valid and its wire form is that string, underscores in prefixes included |
| `TypeId.TextRoundTrip` | libs/go/id/id.go:164-184 | An identifier reads back from its own text if and only if its prefix is valid; the zero value is the exception |
| `TypeId.ParseChecksType` | libs/go/id/id.go:104-113 | Parsing with an expected type accepts exactly the wire forms of identifiers that the constructor makes for that type |
| `TypeId.ParseErrors` | libs/go/id/id.go:104-133 | A text is cut at its last underscore; the prefix is judged before the suffix and the expected type last, each with its own error |
| `TypeId.Target.UnmarshalText` | libs/go/id/id.go:177-184 | The target is overwritten on success and untouched on failure |
| `TypeIdTs.DecodeSuffixByBits` | libs/ts/id/index.ts:100-132 | The TypeScript loop gives exactly the canonical text that spells the number of the suffix, and otherwise the cause that corresponds to the error of Go |
| `TypeIdTs.FillBytes` | libs/ts/id/index.ts:134-145 | The byte loop reads the hexadecimal digits two by two |
| `TypeIdTs.EncodeUuidByBits` | libs/ts/id/index.ts:134-158 | The TypeScript loop gives exactly the suffix that spells the number of the text, for any accepted UUID spelling |
| `TypeIdTs.EncodedUuid` | libs/ts/id/index.ts:134-158 | Encoding gives a suffix if and only if the 32 hexadecimal digits of the text, in either case and with hyphens anywhere, and the suffix spell one number |
| `TypeIdTs.DecodedText` | libs/ts/id/index.ts:100-169 | Decoding gives a text if and only if it is lower case in groups of 8, 4, 4, 4 and 12 and spells the number of the suffix |
| `TypeIdTs.AcceptedUuids` | libs/ts/id/index.ts:134-139 | The accepted UUID texts are exactly those with 32 hexadecimal digits in either case, and hyphens |
| `TypeIdTs.DecodeSuffixErrors` | libs/ts/id/index.ts:100-122 | Which cause each refused suffix has |
| `TypeIdTs.ParseIdErrors` | libs/ts/id/index.ts:49-97 | A text is cut at its last underscore; the prefix is judged first, then the expected type, then the suffix, each with its own cause |
| `TypeIdTs.CanonicalText` | libs/ts/id/index.ts:160-169 | The 8-4-4-4-12 lower-case text of a UUID reads back as that UUID |
| `TypeIdTs.HyphenatedIsCanonical` | libs/ts/id/index.ts:160-169 | Hyphens stand at the places 8, 13, 18 and 23 and nowhere else, and without them the digits are as they were |
| `TypeIdTs.DigitsOfHyphenated` | libs/ts/id/index.ts:160-169 | Hyphenating loses no digit |
| `TypeIdTs.PrefixAgreement` | libs/ts/id/index.ts:33-43 | Both languages accept the same prefixes |
| `TypeIdTs.ParsersAgree` | libs/ts/id/index.ts:49-66 | Both parsers accept the same strings, with the same prefix and the same 128 bits |
| `TypeIdTs.ParsersAgreeOnBytes` | libs/ts/id/index.ts:49-66 | The same for the Go parser on the bytes of a text, for any encoding whose ASCII texts are their own bytes and whose others have a byte outside ASCII |
| `TypeIdTs.TypedParsersAgree` | libs/ts/id/index.ts:49-66 | The same with an expected type |
| `TypeIdTs.FormatThenParse` | libs/ts/id/index.ts:92-97 | Formatting succeeds exactly for a valid prefix and a UUID spelling, and parsing back gives the prefix and the canonical spelling |
| `TypeIdTs.ParseThenFormat` | libs/ts/id/index.ts:49-97 | Formatting what was parsed gives the same wire string |
| `Decimal.ParseOfFormat` | libs/go/money/money.go:60-157 | Reading the text of a fixed-point number gives the number, for every sign, size and scale |
| `Decimal.FormatIsCanonical` | libs/go/money/money.go:138-157 | The text has no superfluous zero on either side and no negative zero |
| `Decimal.FormatOfParse` | libs/go/money/money.go:60-157 | Writing what a canonical text denotes gives the text back |
| `Decimal.CanonicalTexts` | libs/go/money/money.go:138-157 | The texts that are written are exactly the canonical ones |
| `Decimal.FinerScale` | libs/go/money/money.go:204-224 | A text read at the rate's finer scale denotes the same quantity |
| `Decimal.TextFromPieces` | libs/go/money/money.go:65-71 | An accepted text is exactly its sign, its whole digits and its fraction |
| `Decimal.DecimalTexts` | libs/go/money/money.go:46-49 | The accepted texts are exactly an optional minus sign, digits, and at most a point with more digits |
| `Decimal.ParsedPieces` | libs/go/money/money.go:65-89 | A text, canonical or not, denotes its whole digits and its fraction at the scale, negated by a minus sign, and is refused exactly when its fraction is longer |
| `Decimal.DigitValues` | libs/go/money/money.go:78-88 | A digit text denotes its last digit and ten times the rest |
| `Rounding.DivRoundInPlace` | libs/go/money/money.go:302-341 | The branches of the rounding code select the quotient of the specification for every mode value and both signs |
| `Rounding.DivRoundCorrect` | libs/go/money/money.go:301-341 | The result is the one integer that the mode asks for: nearest with the tie to even or away from zero, or truncated; no other integer qualifies |
| `Rounding.OtherModesAreHalfEven` | libs/go/money/money.go:324-330 | Every mode value but the two others rounds half to even |
| `Rounding.ModesByNumber` | libs/go/money/money.go:12-23 | The three modes by their numbers, on ties of both signs |
| `Rounding.OddSymmetry` | libs/go/money/money.go:301-341 | Negating the numerator or the denominator negates the result |
| `Rounding.Monotone` | libs/go/money/money.go:301-341 | For a positive denominator a larger numerator never gives a smaller result |
| `Rounding.CommonFactor` | libs/go/money/money.go:301-341 | A common factor of numerator and denominator does not change the result, in any mode |
| `Money.ParseOfString` | libs/go/money/money.go:60-157 | Every amount with a proper currency reads back from its text |
| `Money.StringIsCanonical` | libs/go/money/money.go:60-157 | A text is reproduced by reading and writing exactly when it is canonical |
| `Money.StringInjective` | libs/go/money/money.go:138-157 | Two usable amounts have the same text exactly when they have the same units |
| `Money.MinorUnitsText` | libs/go/money/money.go:103-115 | An amount from minor units is the amount whose decimal text those units spell at the currency's exponent |
| `Money.MinorUnitsErrors` | libs/go/money/money.go:103-115 | The currency is judged first, then an exponent outside 0 to 4 |
| `Money.ProperCurrencies` | libs/go/money/money.go:117-125 | A currency is proper if and only if it is three capital letters; which error the others cause |
| `Money.ParsedUnits` | libs/go/money/money.go:60-89 | A text is read in ten-thousandths after its currency was judged, and is refused for a fifth decimal place |
| `Money.ParseRefuses` | libs/go/money/money.go:60-89 | Every text that is no decimal of at most four places is refused, and no other |
| `Money.SumsAndDifferences` | libs/go/money/money.go:160-179 | Amounts of one currency add and subtract, subtracting undoes adding, and an amount and its negative cancel; other currencies are refused |
| `Money.MulIsRepeatedAdd` | libs/go/money/money.go:181-187 | Multiplying by a count is adding that often, and by its negative the negative of that |
| `Money.MagnitudeAndOrder` | libs/go/money/money.go:267-292 | The magnitude is the amount or its negative and never below zero; comparing is the sign of the difference |
| `Money.MulRateIs` | libs/go/money/money.go:189-224 | A rate text is read to eight places, and the rated amount is the product with it over 10^8 rounded as the mode asks, in the same currency; a rate that cannot be read is refused |
| `Money.RateIsFraction` | libs/go/money/money.go:189-234 | Rating by the decimal text of p / 10^k is multiplying by p and dividing by 10^k, for every amount and mode |
| `Money.WholeRate` | libs/go/money/money.go:189-202 | Rating by the text of an integer multiplies by it, in every mode |
| `Money.DivIs` | libs/go/money/money.go:226-234 | Dividing rounds the exact quotient as the mode asks, keeps the currency and undoes a multiplication; zero is refused |
| `Money.SplitInPlace` | libs/go/money/money.go:238-265 | The loop that hands out the remainder gives the specified parts, or the error for a count that is not positive |
| `Money.SplitIsFair` | libs/go/money/money.go:236-265 | For every sign and count, the parts, in internal units, sum to the amount, differ by at most one unit, come larger magnitude first and never cross zero |
| `Money.WholeMinorUnitsIff` | libs/go/money/money.go:236-265 | All parts are whole minor units exactly when nothing remains and the truncated part is a whole number of them |
| `Money.SplitOfTen` | libs/go/money/money.go:236-237 | 10.00 in three gives no part in whole cents |
| `Money.FairSplitIsUnique` | libs/go/money/money.go:236-265 | That is the only fair split into so many parts |
| `Money.SplitConserves` | libs/go/money/money.go:160-168 | Adding the parts with the package's own addition gives exactly the amount, currency included |
| `Money.RateDrift` | libs/go/money/money.go:191-202 | In a half mode, rating the n parts and adding differs from rating the whole by at most (n + 1) / 2 units |
| `Money.DownNeverExceeds` | libs/go/money/money.go:191-202 | When truncating, the rated parts never exceed the rated whole in magnitude and fall short of it by less than n units |
| `Money.RoundingKeepsOrder` | libs/go/money/money.go:191-234 | Rating by a rate that is not negative and dividing by a positive count never reverse the comparison of two amounts |
| `Money.RunKeepsWellFormed` | libs/go/money/money.go:159-292 | Over any run of operations an amount keeps its currency and stays either proper or the zero value |
| `Money.StepsUndo` | libs/go/money/money.go:159-292 | Steps of a run that undo each other: a sum and its difference, a product and its quotient, two negations |
| `Money.PartOfOne` | libs/go/money/money.go:236-265 | The one part of a split in one is the amount, and there are no zero parts |
| `MoneySql.Target.Scan` | libs/go/money/sql.go:24-41 | Every driver value overwrites the target or leaves it and reports why; floats are refused |
| `MoneySql.Target.ScanString` | libs/go/money/sql.go:43-52 | Text is read with the placeholder currency |
| `MoneySql.Target.UnmarshalJSON` | libs/go/money/sql.go:86-102 | null gives the zero value, a record is parsed, anything else leaves the target |
| `MoneySql.JsonRoundTrip` | libs/go/money/sql.go:73-102 | The JSON form restores an amount if and only if the package can produce it |
| `MoneySql.SqlRoundTrip` | libs/go/money/sql.go:15-62 | Column text and currency together restore every amount with a proper currency, through strings or bytes |
| `MoneySql.ScannedCurrency` | libs/go/money/sql.go:22-52 | Every scanned value but NULL carries the placeholder currency |
| `MoneySql.ScannedForms` | libs/go/money/sql.go:24-52 | Strings and bytes are read alike, exactly the decimals of at most four places; a float and every other type have their own refusals |
| `MoneySql.WithCurrencyIs` | libs/go/money/sql.go:54-62 | A currency can be set if and only if it is three capital letters; the units stay and a later currency wins |
| `MoneySql.ColumnText` | libs/go/money/sql.go:15-52 | Column text is reproduced exactly when it is canonical |
| `ZodGen.Collect` | tools/zod-gen/main.go:224-241 | From any set of names, the recursion adds what is reachable and terminates on cyclic and dangling graphs |
| `ZodGen.CollectedIsReached` | tools/zod-gen/main.go:224-241 | From a set closed under references, the result is closed and holds the old names and exactly those the schema reaches |
| `ZodGen.CollectBodies` | tools/zod-gen/main.go:129-132 | Over all request bodies the needed names are closed and are exactly those some body reaches |
| `ZodGen.Orderer.Visit` | tools/zod-gen/main.go:188-221 | The recursive closure advances the emitted set and the order as the specified depth-first visit |
| `ZodGen.OrderDependencies` | tools/zod-gen/main.go:188-221 | The whole ordering is the specified visit of the sorted needed names |
| `Names.LessIff` | tools/zod-gen/main.go:188-194 | Names are sorted byte by byte, a name before those it begins |
| `ZodGen.OrderListsEachOnce` | tools/zod-gen/main.go:188-221 | Every needed name is listed exactly once, on cyclic graphs too |
| `ZodGen.OrderPrecedence` | tools/zod-gen/main.go:186-221 | A component stands after everything it depends on that does not depend on it in turn |
| `ZodGen.MatesDescend` | tools/zod-gen/main.go:186-221 | Two components that depend on each other are listed in descending order of their names |
| `ZodGen.RenderedEarlierIff` | tools/zod-gen/main.go:186-221 | Every component that a declaration renders is declared earlier if and only if each rendered reference on a cycle goes to a greater name |
| `ZodGen.DeclaredBeforeUseIffAcyclic` | tools/zod-gen/main.go:125-128 | Every dependency is declared earlier if and only if the needed components have no cycle, and then only could any order do so |
| `ZodGen.EmitModule` | tools/zod-gen/main.go:128-153 | The module declares one constant for each needed component and then one for each body in order, or there is an error exactly when one of them cannot be rendered; whatever the constants of references stand for, each constant accepts every value that conforms to its schema, and nothing else if the schema declares its required members; the module loads if and only if the names and the rendered cycles allow it |
| `ZodGen.FieldsMirror` | tools/zod-gen/main.go:285-316 | An object has one field for each property, in order, with its key and the expression of its schema, optional if and only if the key is not required |
| `ZodGen.LeafAccepts` | tools/zod-gen/main.go:266-273 | What each of the four leaf types accepts |
| `ZodGen.AcceptsConforming` | tools/zod-gen/main.go:245-316 | An expression accepts every value that conforms to its schema, and exactly those if the schema declares each required member, for any meaning of the references |
| `ZodGen.AcceptsExactlyIff` | tools/zod-gen/main.go:243-316 | An expression accepts exactly the conforming values under every meaning of the references if and only if each required member of each rendered object is a property |
| `ZodGen.RendersIff` | tools/zod-gen/main.go:243-283 | A schema is rendered if and only if it is built by objects and arrays from the four leaf types and references to components |
| `ZodGen.RefusedFor` | tools/zod-gen/main.go:245-282 | Which error a nil schema, an unsupported or dangling reference, a missing and an unsupported type cause |
| `ZodGen.FirstRefused` | tools/zod-gen/main.go:299-306 | An object is refused for the first of its properties that is |
| `ZodGen.RefNameIs` | tools/zod-gen/main.go:359-365 | A reference names what stands behind the fixed prefix |
| `ZodGen.ConstNameOf` | tools/zod-gen/main.go:367-397 | A constant is the name with its first letter in lower case and `Schema` behind it; a first byte outside ASCII becomes U+FFFD |
| `ZodGen.ModuleRepresents` | tools/zod-gen/main.go:128-153 | The constants of a module in order, and what each accepts |
| `ZodGen.ModuleRendersIff` | tools/zod-gen/main.go:128-153 | A module is emitted if and only if every needed component and every body can be rendered |
| `ZodGen.UsedAreRendered` | tools/zod-gen/main.go:245-316 | An expression names exactly the constants of the references it renders, which are among those that are collected |
| `ZodGen.AcyclicAscends` | tools/zod-gen/main.go:186-187 | Components without a cycle meet that condition |
| `ZodGen.ModuleUsesEarlierIff` | tools/zod-gen/main.go:125-153 | With distinct constants, every constant that an expression of the module names is declared on an earlier line if and only if each rendered reference on a cycle goes to a greater name; that condition always suffices |
| `ZodGen.BackwardReference` | tools/zod-gen/main.go:186-221 | Two components that fail the condition, and meet it under exchanged names |
| `ZodGen.ModuleConstantsBare` | tools/zod-gen/main.go:367-385 | All constants of a module are bare identifiers, as the generator's own quoting rule has them, exactly when its component and operation names are |
| `ZodGen.BareIff` | tools/zod-gen/main.go:373-385 | A bare name holds ASCII letters, digits, `_` and `$` and does not begin with a digit |
| `ZodGen.ModuleLoadsIff` | tools/zod-gen/main.go:125-153 | A module declares no constant twice, none that is no identifier and none too late if and only if its names are bare and stay apart and its rendered cycles ascend |
| `ZodGen.CollidingLetters` | tools/zod-gen/main.go:392-397 | Any two letters outside ASCII with the same last bytes get one constant |
| `ZodGen.ConstantsDistinct` | tools/zod-gen/main.go:133-138 | The component constants are distinct exactly when the needed names stay different under the lower-casing of their first byte |
| `ZodGen.ModuleConstantsDistinct` | tools/zod-gen/main.go:128-153 | All constants of a module are distinct exactly when that holds, the operation ids differ, and no operation id is a needed name so lower-cased |
| `ZodGen.OperationTakesConstant` | tools/zod-gen/main.go:138-149 | An operation named like its component declares the component's constant again, by itself, in a module without a cycle |
| `ZodGen.SelfReference` | tools/zod-gen/main.go:128-153 | The module of a component that references itself declares a constant by itself, before it exists |
| `ZodGen.CollidingConstants` | tools/zod-gen/main.go:369-397 | Two different names with one constant |
| `Regions.StripRegionsLoop` | tools/shared-components/main.go:115-130 | The loop drops exactly the lines from a region's begin mark to its end mark |
| `Regions.SpliceLoop` | tools/shared-components/main.go:232-267 | The search and the splice give the specified text, or the error for a missing mark |
| `Regions.SpliceKeepsStripped` | tools/shared-components/main.go:232-267 | Splicing a block that closes no region leaves the text outside the regions as it was |
| `Regions.UnchangedIffHolds` | tools/shared-components/main.go:232-267 | Splicing changes nothing exactly when the region already holds the indented block |
| `Regions.SpliceHolds` | tools/shared-components/main.go:232-267 | After splicing, the region holds the block |
| `Regions.Marks` | tools/shared-components/main.go:22-25 | The texts of the begin and end marks, around which white space does not count |
| `Lines.TrimIs` | tools/shared-components/main.go:118-121 | White space around a line does not hide a mark, and nothing else is trimmed |
| `Lines.SpaceCodes` | tools/shared-components/main.go:118-121 | The code points that count as white space |
| `Regions.StripOfRegion` | tools/shared-components/main.go:113-130 | Lines before the first begin mark are kept, and a region goes from its begin line to its end line |
| `Regions.SpliceOfRegion` | tools/shared-components/main.go:232-267 | The block replaces what stands between the first begin line of the section and the next end line, and nothing else |
| `Regions.BlockLinesAre` | tools/shared-components/main.go:255-264 | The spliced lines are those of the block without its last line breaks, each one that is not empty behind the indent |
| `Regions.IndentOfIs` | tools/shared-components/main.go:238-243 | The indent is all the spaces in front of the begin mark |
| `Regions.SpliceErrors` | tools/shared-components/main.go:248-253 | A splice fails exactly without a begin line, and exactly without an end line behind the first begin line |
| `SharedComponents.Reachable` | tools/shared-components/main.go:73-102 | The worklist computes the least set of shared components that holds the seeds and is closed under references, and terminates |
| `SharedComponents.RefsInAreReferences` | tools/shared-components/main.go:27-111 | The references found are exactly those the text holds: the path of one of the two sections and the whole of a name behind it |
| `SharedComponents.SharedIs` | tools/shared-components/main.go:73-80 | A reference is shared with a definition exactly when the last entry of that name in that section has it |
| `SharedComponents.KeptPlaces` | tools/shared-components/main.go:289-303 | The kept entries stand in source order |
| `SharedComponents.KeptCounts` | tools/shared-components/main.go:289-303 | An entry is kept as often as the source has it if its reference is to be kept, and never otherwise |
| `SharedComponents.LeastIsWanted` | tools/shared-components/main.go:70-102 | A component is reached exactly when every set has it that holds the shared references of the text outside the regions and, with a component, those of its definition |
| `SharedComponents.ComputeBlocks` | tools/shared-components/main.go:53-130 | Each block renders exactly the entries of its section that the spec needs, in source order and with repeats, and is empty when there are none |
| `SharedComponents.BlocksCarry` | tools/shared-components/main.go:53-130 | The same of the blocks that a run of the generator splices |
| `SharedComponents.SpecFile.Apply` | tools/shared-components/main.go:182-213 | The file changes exactly when its updated text differs and this is no dry run; an error changes nothing |
| `SharedComponents.SpecFile.Generate` | tools/shared-components/main.go:153-171 | The same for blocks computed from the file's own text |
| `SharedComponents.ApplyKeepsStripped` | tools/shared-components/main.go:182-213 | Splicing both sections leaves the text outside the regions as it was |
| `SharedComponents.BlocksAreStable` | tools/shared-components/main.go:55-130 | The blocks computed from the output are the blocks that were spliced |
| `SharedComponents.SecondRunIsNoOp` | tools/shared-components/main.go:182-213 | With disjoint regions and blocks free of marks, a second run changes nothing |
| `SharedComponents.SecondRunIffSettled` | tools/shared-components/main.go:182-267 | A second run changes nothing if and only if the regions are not nested or the text after the schemas region has another one that holds the block |
| `SharedComponents.SecondRunOnNested` | tools/shared-components/main.go:182-267 | On nested regions a second run fails exactly as a splice of the text after the schemas region fails |
| `SharedComponents.SecondRunIffNotNested` | tools/shared-components/main.go:182-267 | With one schemas begin mark, a second run changes nothing if and only if the regions are not nested; on nested regions it fails for want of a mark |
| `SharedComponents.NestedExample` | tools/shared-components/main.go:232-267 | A nested file that a first run accepts and a second run refuses |
| `SharedComponents.GenerateThenCheck` | tools/shared-components/main.go:136-213 | Generating and then checking the same file reports it clean |
| `Schedules.ParseSchedules` | libs/go/temporalmw/schedules.go:31-50 | A file is accepted exactly when every entry is complete and no id repeats; otherwise the first offending entry is named |
| `Schedules.Apply` | libs/go/temporalmw/schedules.go:73-118 | One entry takes effect as a whole and no other schedule changes, or nothing changes; a failed call may have done either. Its schedule then runs the workflow, arguments and queue of the entry under the id with `-run`, by its cron and note; an existing one keeps its paused state, policy and memo, a new one runs and carries its owner |
| `Schedules.Prune` | libs/go/temporalmw/schedules.go:120-140 | Wherever it stops, only unwanted schedules of the owner are deleted, the one whose deletion failed perhaps among them; on success all are |
| `Schedules.ReconcileSchedules` | libs/go/temporalmw/schedules.go:61-71 | Wherever the calls stop, and whether or not the failed call took effect, the cluster is in an intermediate state of the run; on success the last entry of each id has taken effect, the other schedules of the owner are gone and all others are as they were; enough allowed calls mean success |
| `Schedules.EveryStepIsSafe` | libs/go/temporalmw/schedules.go:59-140 | In every intermediate state, schedules of others are untouched, and a wanted one is as it was or as one of its entries makes it, so that it keeps its paused state, policy and memo |
| `Schedules.RerunReachesSameState` | libs/go/temporalmw/schedules.go:61-140 | A rerun after stopping at any call reaches exactly the state of one full run |
| `Schedules.ReconcileIsIdempotent` | libs/go/temporalmw/schedules.go:61-140 | A reconciled cluster is reconciled with itself |
| `Schedules.ReconciledIsUnique` | libs/go/temporalmw/schedules.go:61-140 | The final state is determined by the start, the owner and the wanted schedules |
| `Schedules.EachEntryTakesEffect` | libs/go/temporalmw/schedules.go:73-118 | With distinct ids every entry ends with its workflow, queue, arguments, id, cron and note, its earlier paused state, policy and memo, or as a fresh schedule of the owner |
| `Schedules.BecomesExactly` | libs/go/temporalmw/schedules.go:73-118 | What an entry makes of its schedule is determined by what it carries and what is kept |
| `Schedules.FulfilledIff` | libs/go/temporalmw/schedules.go:57-140 | At every id, being reconciled is what the reconcile promises |
| `Schedules.MemoOwnerIs` | libs/go/temporalmw/schedules.go:142-156 | A schedule has an owner exactly when the memo field `owner` decodes to it |
| `Schedules.DroppedIsDeletedIff` | libs/go/temporalmw/schedules.go:15-16 | An entry that is added and later dropped is deleted exactly when its id was new or already the owner's |
| `Schedules.UnmarkedSurviveIffOwnerNamed` | libs/go/temporalmw/schedules.go:15-17 | Schedules without the owner key always survive if and only if the owner is not empty |
| `Schedules.OwnersCommute` | libs/go/temporalmw/schedules.go:61-140 | Two owners with separate schedules reach the same cluster in either order |
| `Router.FindPath` | libs/go/sdks/analytics/oas_router_gen.go:397-710 | Below the configured prefix the unrolled prefix tree finds an operation with its arguments exactly when the method is its method and the path matches its pattern |
| `Router.FindInAnalytics` | libs/go/sdks/analytics/oas_router_gen.go:439-617 | The branches below the analytics root |
| `Router.FindInSubjects` | libs/go/sdks/analytics/oas_router_gen.go:619-705 | The branches below the subject-data root |
| `Router.ServeHTTP` | libs/go/sdks/analytics/oas_router_gen.go:43-344 | The second copy of the tree handles exactly the same; it answers not found exactly when no pattern matches, and otherwise lists exactly the methods there are for the path, in ascending order |
| `Router.ServeAnalytics` | libs/go/sdks/analytics/oas_router_gen.go:79-247 | The same below the analytics root |
| `Router.ServeSubjects` | libs/go/sdks/analytics/oas_router_gen.go:249-339 | The same below the subject-data root |
| `Router.ResolveIsTable` | libs/go/sdks/analytics/oas_router_gen.go:397-710 | A path resolves to a leaf with arguments if and only if it matches that leaf's pattern with them |
| `Router.RouterRefinesTable` | libs/go/sdks/analytics/oas_router_gen.go:397-710 | An operation is found with its argument exactly when method and pattern match, a parameter being a possibly empty slash-free segment |
| `Router.AtMostOneMatches` | libs/go/sdks/analytics/oas_router_gen.go:397-710 | No method and path match two operations or two arguments |
| `Router.ServerAgreesWithFind` | libs/go/sdks/analytics/oas_router_gen.go:43-710 | The server handles exactly what the finder finds, and refuses a method exactly when the path matches under another one; the allowed list is complete |
| `Router.AllowedVerbs` | libs/go/sdks/analytics/oas_router_gen.go:79-339 | The allowed list of a refused method has exactly the methods the path answers, ascending and divided by commas |
| `Router.CutPrefixIs` | libs/go/sdks/analytics/oas_router_gen.go:14-37 | A path is cut to what follows the prefix, or is not under it |
| `Router.ClientPathRoutesBack` | libs/go/sdks/analytics/oas_client_gen.go:268-291 | A path the client joins from a slash-free encoded parameter routes back to that operation and parameter |
| `Normalise.NormaliseGo` | libs/go/observability/errors.go:120-155 | The index loop gives the specified text: each maximal run replaced by its class |
| `Normalise.NormaliseTs` | libs/ts/observability/index.ts:13-28 | The TypeScript loop gives the same text, so the two versions agree |
| `Normalise.ConsumeRun` | libs/ts/observability/index.ts:34-56 | It takes one maximal run and emits its class |
| `Normalise.NormalIsIdempotent` | libs/go/observability/errors.go:117-151 | Normalising twice is normalising once |
| `Normalise.NormalLeavesFewDigits` | libs/go/observability/errors.go:117-151 | Digits remain only in mixed runs shorter than four |
| `Normalise.MergesExactly` | libs/go/observability/errors.go:117-151 | Two messages that differ in one run normalise alike if and only if both runs are numbers, both are long mixed runs, or they are equal |
| `Normalise.NormalCommutesWithEncoding` | libs/ts/observability/index.ts:13-56 | Normalising code units and normalising their encoded bytes agree for any encoding that keeps ASCII |
| `Normalise.WordBecomes` | libs/go/observability/errors.go:139-149 | Between other characters, digits become `<n>`, a run of four or more with a digit and a letter becomes `<x>`, and every other run stays |
| `Normalise.OtherCharactersStay` | libs/go/observability/errors.go:123-128 | What is no ASCII letter or digit stays and divides runs |
| `LogicalClasses.VariantEndLoop` | tools/lint-i18n/main.go:75-90 | The depth-counting loop computes the specified cut |
| `LogicalClasses.VariantEndIsLastColon` | tools/lint-i18n/main.go:74-90 | The cut follows the last colon outside square brackets, and no such colon follows it |
| `LogicalClasses.RewrittenMatchesNothing` | tools/lint-i18n/main.go:23-43 | No rewritten utility matches any swap again |
| `LogicalClasses.SidesCorrespond` | tools/lint-i18n/main.go:23-43 | Every swap keeps the family of the utility and turns left into start and right into end |
| `LogicalClasses.RewritesExactly` | tools/lint-i18n/main.go:23-43 | The rewritten utilities are exactly the margins, paddings, insets, borders, corners and alignments with a left or right side and a tail the pattern admits, each exchanged for its logical form |
| `LogicalClasses.OneSwapMatches` | tools/lint-i18n/main.go:23-43 | No utility matches two swaps, so their order does not matter |
| `LogicalClasses.RewriteIsInjective` | tools/lint-i18n/main.go:23-43 | The swaps merge no two physical utilities: neither sides nor sizes |
| `LogicalClasses.RewriteKeepsParts` | tools/lint-i18n/main.go:57-72 | A rewritten token has the same variants and modifiers and the rewritten utility |
| `LogicalClasses.TokenOfUtility` | tools/lint-i18n/main.go:48-72 | A token of variants, modifiers and a physical utility has the utility exchanged, unless a variant names a physical placement |
| `LogicalClasses.PhysicalSides` | tools/lint-i18n/main.go:48-50 | A variant names a physical placement by the text `side=left]` or `side=right]` |
| `LogicalClasses.ChangesExactly` | tools/lint-i18n/main.go:48-72 | A token changes exactly when its utility is physical and no variant names a physical placement |
| `LogicalClasses.LogicalTokenIsIdempotent` | tools/lint-i18n/main.go:57-72 | A rewritten token is left alone |
| `LogicalClasses.LogicalTokenIsToken` | tools/lint-i18n/main.go:45-72 | A rewritten token is still one token |
| `LogicalClasses.SeparatorCharacters` | tools/lint-i18n/main.go:45-46 | The characters that separate tokens |
| `LogicalClasses.QuotedToken` | tools/lint-i18n/main.go:45-55 | Between two separators a token is rewritten alone, and the texts before and behind it are too |
| `LogicalClasses.ToLogicalIsIdempotent` | tools/lint-i18n/main.go:52-55 | Rewriting a text twice is rewriting it once |
| `LogicalClasses.RewriteKeepsOutline` | tools/lint-i18n/main.go:45-55 | The tokens are rewritten one by one and no separator or token boundary moves |
| `LogicalClasses.RewriteOfLines` | tools/lint-i18n/main.go:226-232 | The lines of a rewritten text are the rewritten lines |
| `LogicalClasses.ChangesIffALineDoes` | tools/lint-i18n/main.go:213-232 | A text changes exactly when one of its lines does |
| `LogicalClasses.ReportsChangedLines` | tools/lint-i18n/main.go:206-233 | A line is reported if and only if the fix changes it |
| `LogicalClasses.FixThenCheck` | tools/lint-i18n/main.go:206-233 | The fix changes a file exactly when a plain run reports something, and after it nothing is reported |
| `LogicalClasses.SourceTree.CheckLogicalProperties` | tools/lint-i18n/main.go:206-234 | With the fix every file is rewritten and nothing reported; without it no file changes and the changed lines are reported in order |
| `CallLayout.ExplodeEdits` | tools/gostyle/main.go:57-75 | The loop over the previous end gives the specified edits |
| `CallLayout.LineOfStart` | tools/gostyle/main.go:57-75 | After any insertions a token starts lower by exactly the line breaks inserted up to it |
| `CallLayout.AppliedOne` | tools/gostyle/main.go:57-75 | An edit puts its text before its offset and leaves the rest |
| `CallLayout.MovedIsValid` | tools/gostyle/main.go:57-75 | After any insertions the positions of a call are still in source order |
| `CallLayout.FixExplodes` | tools/gostyle/main.go:55-122 | Applying a call's edits makes the call fully exploded by the analyzer's own check |
| `CallLayout.NoEditsIffExploded` | tools/gostyle/main.go:57-122 | With any spread dots on the last argument's line, there is nothing to insert exactly when the call is exploded; in general its end, dots included, must also stand above the closing paren |
| `CallLayout.GapAfterFix` | tools/gostyle/main.go:67-74 | Between the last argument and the closing paren of the moved call the old text stays, behind the inserted comma and line break |
| `CallLayout.OneCommaIff` | tools/gostyle/main.go:67-74 | One comma follows the last argument exactly when none stood there on the line of the closing paren, or one did on a line before |
| `CallLayout.CommasOfCode` | tools/gostyle/main.go:67-74 | Outside comments every comma counts |
| `CallLayout.CommasOfLineComment` | tools/gostyle/main.go:67-74 | In a line comment none does |
| `CallLayout.CommasOfBlockComment` | tools/gostyle/main.go:67-74 | In a block comment none does |
| `CallLayout.SoundAfterFixesIff` | tools/gostyle/main.go:25-75 | After all fixes of a file together, each call has one comma after its last argument, or none on one line, exactly when no reported call had a comma before its closing paren on that line |
| `CallLayout.TrailingCommaExample` | tools/gostyle/main.go:67-74 | A call whose fix leaves two commas |
| `CallLayout.ArgumentsAreKept` | tools/gostyle/main.go:55-75 | The text of every argument is the same after the fix |
| `CallLayout.RunCallArgs` | tools/gostyle/main.go:25-53 | The analyzer reports the partly broken calls of a file that is not generated, in order, with their edits |
| `CallLayout.ReportedIff` | tools/gostyle/main.go:31-122 | A call is reported if and only if it has arguments, a line break stands between its parens, and one is missing before some argument or before the closing paren |
| `CallLayout.EditsMissSingle` | tools/gostyle/main.go:31-50 | No edit of a reported call falls between the parens of a one-line call |
| `CallLayout.FixThenCheck` | tools/gostyle/main.go:25-122 | After all fixes of a file together, however its calls nest, no call is reported |
| `Roles.ParseRoles` | libs/go/authmw/authmw.go:97-116 | The loop keeps the trimmed non-empty fields of the unwrapped header |
| `Roles.FieldsDivide` | libs/go/authmw/authmw.go:104 | A comma or a space divides the fields of a header |
| `Roles.OneField` | libs/go/authmw/authmw.go:104 | A text with neither is one field |
| `Roles.PlainRoles` | libs/go/authmw/authmw.go:104-110 | What a role may be: not empty, without comma and space, and without white space at an end |
| `Roles.ParsedArePlain` | libs/go/authmw/authmw.go:97-116 | Whatever the header, every role is non-empty, trimmed and free of commas and spaces |
| `Roles.CommaRoundTrip` | libs/go/authmw/authmw.go:97-136 | Joined roles parse back if and only if all are plain, the first starts with no "[" and the last ends with no "]" |
| `Roles.BracketedRoundTrip` | libs/go/authmw/authmw.go:94-116 | The printed slice form parses back if and only if all roles are plain |
| `Roles.Request.RoundTrip` | libs/go/authmw/authmw.go:129-144 | The request is never changed; a clone carries the non-empty values, whatever the order of the map |
| `Roles.IdentityHeaders` | libs/go/authmw/authmw.go:12-19 | The user id, the organisation id and the joined roles travel in `X-User-Id`, `X-Org-Id` and `X-Roles`, and an empty value sets none |
| `Roles.ReadHeaders` | libs/go/authmw/authmw.go:57-66 | A principal is read from the first value of each of these headers |
| `Roles.OtherHeadersAreKept` | libs/go/authmw/authmw.go:132-143 | Headers that carry no identity reach the callee as they were |
| `Roles.IdentitySurvivesHop` | libs/go/authmw/authmw.go:57-144 | The callee reads the same principal exactly when the roles parse back and no header of the request stands in for an empty value |
| `Roles.IdentitySurvives` | libs/go/authmw/authmw.go:57-144 | On a request without identity headers only the form of the roles matters |
| `Roles.ReadThenForward` | libs/go/authmw/authmw.go:57-144 | A principal read from headers survives another hop unless a bracket stands at an end of its roles |
| `Roles.NoRolesIff` | libs/go/authmw/authmw.go:97-116 | A header names no role exactly when only dividers and white space stand between its brackets |
| `Roles.AnonymousIff` | libs/go/authmw/authmw.go:118-144 | The callee of a request without a principal sees nobody exactly when no identity header of the request holds anything |
| `Roles.StaleHeaderIsForwarded` | libs/go/authmw/authmw.go:129-144 | A request header passes for an empty value of the caller |

## Left out

- Identifiers: generating UUIDs, the constructors that panic, and the helpers that only call the parser.
- Money: equality, sign and zero tests, and the 64-bit width of a factor or a minor-unit value; the big-integer arithmetic
  itself is Dafny's.
- Money.RateDrift: the bound is for the two half modes; `Money.DownNeverExceeds` gives the bound for truncation.
- MoneySql: the bytes of a JSON document; a document is null, a record of two strings, or malformed.
- ZodGen.ModuleConstantsBare: JavaScript also admits letters outside ASCII in identifiers; the generator's own rule does
  not.
- ZodGen: the checks of leaf expressions (formats, bounds, enumerations, patterns), key quoting, the type exports, and
  reading the specification file; a leaf accepts the values of its type.
- SharedComponents: the YAML library; rendered entries are texts with a function that joins a filtered section into a block.
- SharedComponents.SecondRunIffNotNested: speaks of files with one schemas begin mark; `SharedComponents.SecondRunIffSettled`
  needs no such condition.
- Schedules: decoding YAML, the argument values, logging, a listing that lags behind the cluster, and other writers during
  a run; the listing is a snapshot of the cluster at the call.
- Router: escaped paths (the normalised raw path), unescaping an argument, the request handlers, and the descriptive
  fields of a route.
- Router.ClientPathRoutesBack: the parameter is the encoded text; URL escaping itself is a library.
- Normalise: the SHA-256 and FNV digests, the error type and the stack frames that join the message in a fingerprint.
- LogicalClasses: the key parity of the message catalogues, and the walk and writes of files; a tree is its file texts in
  walk order.
- CallLayout: parsing Go and the indentation that gofmt sets; positions moved by line directives.
- CallLayout.FixThenCheck: the calls of the fixed file are the same calls at their moved positions, whether or not its
  commas are in order; `CallLayout.SoundAfterFixesIff` says when they are.
- Roles: the request context as a library, white space that HTTP trims from a header in transit, and the role and
  subject helpers.
- Error message texts, logging and file access everywhere: errors are tags and files are strings.
