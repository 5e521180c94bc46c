/** The i18n gate's rewrite of physical CSS utilities to their logical forms. */
module LogicalClasses {
  import opened Wrappers
  import opened Lines
  import opened Text

  // ---- the swaps ----

  /** What may follow the physical prefix of a utility. */
  datatype Tail = Nothing | Number | AutoOrNumber | Digits | LowerAlnum

  /** The pattern ^prefix(tail)$ and its replacement, which keeps the tail. */
  datatype Swap = Swap(prefix: string, tail: Tail, with: string)

  /** The swaps, tried in this order. */
  function Swaps(): (swaps: seq<Swap>)
    ensures |swaps| == 14
  {
    [
      Swap("ml-", AutoOrNumber, "ms-"),
      Swap("mr-", AutoOrNumber, "me-"),
      Swap("pl-", Number, "ps-"),
      Swap("pr-", Number, "pe-"),
      Swap("border-l-", Digits, "border-s-"),
      Swap("border-r-", Digits, "border-e-"),
      Swap("border-l", Nothing, "border-s"),
      Swap("border-r", Nothing, "border-e"),
      Swap("rounded-l-", LowerAlnum, "rounded-s-"),
      Swap("rounded-r-", LowerAlnum, "rounded-e-"),
      Swap("text-left", Nothing, "text-start"),
      Swap("text-right", Nothing, "text-end"),
      Swap("left-", Number, "start-"),
      Swap("right-", Number, "end-")
    ]
  }

  predicate TailOk(tail: Tail, s: string) {
    match tail
    case Nothing => s == ""
    case Number => s != "" && forall k :: 0 <= k < |s| ==> IsDigit(s[k]) || s[k] == '.'
    case AutoOrNumber => s == "auto" || (s != "" && forall k :: 0 <= k < |s| ==> IsDigit(s[k]) || s[k] == '.')
    case Digits => s != "" && forall k :: 0 <= k < |s| ==> IsDigit(s[k])
    case LowerAlnum => s != "" && forall k :: 0 <= k < |s| ==> IsDigit(s[k]) || 'a' <= s[k] <= 'z'
  }

  predicate MatchesSwap(sw: Swap, core: string) {
    StartsWith(core, sw.prefix) && TailOk(sw.tail, core[|sw.prefix|..])
  }

  /** The index of the first swap that matches, or 14 when none does. */
  function FirstSwap(core: string, from: nat): (i: nat)
    requires from <= 14
    ensures from <= i <= 14
    ensures i < 14 ==> MatchesSwap(Swaps()[i], core)
    ensures forall k :: from <= k < i ==> !MatchesSwap(Swaps()[k], core)
    decreases 14 - from
  {
    if from == 14 || MatchesSwap(Swaps()[from], core) then from else FirstSwap(core, from + 1)
  }

  predicate MatchesAny(core: string) {
    FirstSwap(core, 0) < 14
  }

  function Rewrite(core: string): string {
    var i := FirstSwap(core, 0);
    if i == 14 then core else Swaps()[i].with + core[|Swaps()[i].prefix|..]
  }

  // ---- one token ----

  /** The separators of class tokens: white space, quotes and braces. */
  predicate IsSeparator(c: char) {
    c == ' ' || c == '\t' || c == '\n' || c == '\U{0C}' || c == '\r'
    || c == '\"' || c == '\'' || c == '`' || c == '{' || c == '}'
  }

  /** The index after the last colon outside square brackets, scanning from i. */
  function VariantEnd(token: string, i: nat, depth: int, end: nat): (cut: nat)
    requires i <= |token| && end <= i
    ensures end <= cut <= |token|
    ensures cut == end || cut > i
    decreases |token| - i
  {
    if i == |token| then end
    else if token[i] == '[' then VariantEnd(token, i + 1, depth + 1, end)
    else if token[i] == ']' then VariantEnd(token, i + 1, depth - 1, end)
    else if token[i] == ':' && depth == 0 then VariantEnd(token, i + 1, depth, i + 1)
    else VariantEnd(token, i + 1, depth, end)
  }

  method VariantEndLoop(token: string) returns (end: nat)
    ensures end == VariantEnd(token, 0, 0, 0) && end <= |token|
  {
    var depth := 0;
    end := 0;
    for i := 0 to |token|
      invariant end <= i
      invariant VariantEnd(token, i, depth, end) == VariantEnd(token, 0, 0, 0)
    {
      match token[i] {
      case '[' => depth := depth + 1;
      case ']' => depth := depth - 1;
      case ':' =>
        if depth == 0 {
          end := i + 1;
        }
      case _ =>
      }
    }
  }

  predicate Contains(s: string, part: string) {
    exists k :: 0 <= k <= |s| && StartsWith(s[k..], part)
  }

  /** A variant for a physical placement, whose classes name that side on purpose. */
  predicate NamesPhysicalSide(variants: string) {
    Contains(variants, "side=left]") || Contains(variants, "side=right]")
  }

  function LeadLength(utility: string): (n: nat)
    ensures n <= |utility|
    ensures forall k :: 0 <= k < n ==> utility[k] == '-' || utility[k] == '!'
    ensures n < |utility| ==> utility[n] != '-' && utility[n] != '!'
  {
    if utility != "" && (utility[0] == '-' || utility[0] == '!') then 1 + LeadLength(utility[1..]) else 0
  }

  /** A token taken apart: its variants, its `-` and `!` modifiers, and the utility itself. */
  datatype Parts = Parts(variants: string, lead: string, core: string)

  function PartsOf(token: string): (p: Parts)
    ensures token == p.variants + p.lead + p.core
  {
    var cut := VariantEnd(token, 0, 0, 0);
    var utility := token[cut..];
    var n := LeadLength(utility);
    Parts(token[..cut], utility[..n], utility[n..])
  }

  function LogicalToken(token: string): string {
    var p := PartsOf(token);
    if NamesPhysicalSide(p.variants) || !MatchesAny(p.core) then token
    else p.variants + p.lead + Rewrite(p.core)
  }

  // ---- the whole text ----

  function TokenLength(s: string): (n: nat)
    ensures n <= |s|
    ensures forall k :: 0 <= k < n ==> !IsSeparator(s[k])
    ensures n < |s| ==> IsSeparator(s[n])
    ensures s != "" && !IsSeparator(s[0]) ==> n > 0
  {
    if s != "" && !IsSeparator(s[0]) then 1 + TokenLength(s[1..]) else 0
  }

  /** Every maximal token rewritten, every separator kept. */
  function ToLogical(body: string): string
    decreases |body|
  {
    if body == "" then ""
    else if IsSeparator(body[0]) then [body[0]] + ToLogical(body[1..])
    else
      var n := TokenLength(body);
      LogicalToken(body[..n]) + ToLogical(body[n..])
  }

  // ---- no rewritten utility matches again ----

  /** Two literals that disagree at some place both have. */
  predicate Disagree(a: string, b: string) {
    exists k :: 0 <= k < |a| && k < |b| && a[k] != b[k]
  }

  lemma DisagreeAt(a: string, b: string, k: nat)
    requires k < |a| && k < |b| && a[k] != b[k]
    ensures Disagree(a, b)
  {
  }

  lemma DisagreeingNeverMatches(with: string, rest: string, sw: Swap)
    requires Disagree(with, sw.prefix)
    ensures !MatchesSwap(sw, with + rest)
  {
    var k :| 0 <= k < |with| && k < |sw.prefix| && with[k] != sw.prefix[k];
    var core := with + rest;
    assert |core| >= |sw.prefix| ==> core[..|sw.prefix|][k] == with[k];
  }

  /** Where a physical prefix and a replacement of the same family take different letters. */
  function SideAt(i: nat): nat {
    if i < 4 then 1 else if i < 8 then 7 else if i < 10 then 8 else if i < 12 then 5 else 0
  }

  function HeadOf(i: nat): char {
    if i < 2 then 'm' else if i < 4 then 'p' else if i < 8 then 'b' else if i < 10 then 'r' else 't'
  }

  lemma PrefixNamesSide(j: nat)
    requires j < 14
    ensures |Swaps()[j].prefix| > SideAt(j) && |Swaps()[j].prefix| > 1
    ensures Swaps()[j].prefix[SideAt(j)] == if j % 2 == 0 then 'l' else 'r'
    ensures j < 12 ==> Swaps()[j].prefix[0] == HeadOf(j)
    ensures j >= 8 ==> Swaps()[j].prefix[1] in {'o', 'e', 'i'} && (Swaps()[j].prefix[1] == 'o' <==> j < 10)
  {
  }

  lemma ReplacementNamesSide(i: nat)
    requires i < 14
    ensures |Swaps()[i].with| > SideAt(i) && |Swaps()[i].with| > 1
    ensures Swaps()[i].with[SideAt(i)] == if i % 2 == 0 then 's' else 'e'
    ensures i < 12 ==> Swaps()[i].with[0] == HeadOf(i)
    ensures 8 <= i < 10 ==> Swaps()[i].with[1] == 'o'
  {
  }

  /** No replacement begins like any physical prefix. */
  lemma ReplacementsAreLogical(i: nat, j: nat)
    requires i < 14 && j < 14
    ensures Disagree(Swaps()[i].with, Swaps()[j].prefix)
  {
    hide Swaps, Disagree;
    PrefixNamesSide(j);
    ReplacementNamesSide(i);
    var w, p := Swaps()[i].with, Swaps()[j].prefix;
    if w[0] != p[0] {
      DisagreeAt(w, p, 0);
    } else if SideAt(i) == SideAt(j) {
      DisagreeAt(w, p, SideAt(i));
    } else {
      DisagreeAt(w, p, 1);
    }
  }

  lemma RewrittenMatchesNothing(core: string)
    requires MatchesAny(core)
    ensures !MatchesAny(Rewrite(core))
  {
    hide Swaps, Disagree;
    var i := FirstSwap(core, 0);
    var j := FirstSwap(Rewrite(core), 0);
    if j < 14 {
      ReplacementsAreLogical(i, j);
      DisagreeingNeverMatches(Swaps()[i].with, core[|Swaps()[i].prefix|..], Swaps()[j]);
    }
  }

  /** A left side becomes a start side and a right side an end side, in the same family of utilities. */
  lemma SidesCorrespond(i: nat)
    requires i < 14
    ensures var p, w, k := Swaps()[i].prefix, Swaps()[i].with, SideAt(i);
            && k < |p| && k < |w| && p[..k] == w[..k]
            && ((p[k] == 'l' && w[k] == 's') || (p[k] == 'r' && w[k] == 'e'))
  {
    hide Swaps;
    PrefixNamesSide(i);
    ReplacementNamesSide(i);
    SameFamily(i);
  }

  lemma SameFamily(i: nat)
    requires i < 14 && |Swaps()[i].prefix| > SideAt(i) && |Swaps()[i].with| > SideAt(i)
    ensures Swaps()[i].prefix[..SideAt(i)] == Swaps()[i].with[..SideAt(i)]
  {
  }

  lemma LongAndShortBorders(i: nat, j: nat)
    requires i < 14 && j < 14 && i != j && i % 2 == j % 2 && SideAt(i) == SideAt(j) == 7
    ensures i < j ==> |Swaps()[i].with| > |Swaps()[j].with| && Swaps()[i].tail == Digits && Swaps()[j].tail == Nothing
    ensures j < i ==> |Swaps()[j].with| > |Swaps()[i].with| && Swaps()[j].tail == Digits && Swaps()[i].tail == Nothing
  {
  }

  lemma DifferentSwapsDiffer(i: nat, j: nat, a: string, b: string)
    requires i < 14 && j < 14 && i != j && TailOk(Swaps()[i].tail, a) && TailOk(Swaps()[j].tail, b)
    ensures Swaps()[i].with + a != Swaps()[j].with + b
  {
    hide Swaps;
    ReplacementNamesSide(i);
    ReplacementNamesSide(j);
    var v, w := Swaps()[i].with, Swaps()[j].with;
    if v[0] == w[0] && SideAt(i) == SideAt(j) && i % 2 == j % 2 {
      LongAndShortBorders(i, j);
      assert |v + a| != |w + b|;
    } else {
      var k := if v[0] != w[0] then 0 else SideAt(i);
      assert (v + a)[k] == v[k] && (w + b)[k] == w[k];
    }
  }

  /** Different physical utilities become different logical ones: no swap merges two sides or two sizes. */
  lemma RewriteIsInjective(a: string, b: string)
    requires MatchesAny(a) && MatchesAny(b) && Rewrite(a) == Rewrite(b)
    ensures a == b
  {
    hide Swaps;
    var i, j := FirstSwap(a, 0), FirstSwap(b, 0);
    var v, w := Swaps()[i], Swaps()[j];
    var x, y := a[|v.prefix|..], b[|w.prefix|..];
    if i != j {
      DifferentSwapsDiffer(i, j, x, y);
    }
    assert (v.with + x)[|v.with|..] == x && (w.with + y)[|w.with|..] == y;
    assert a == v.prefix + x && b == w.prefix + y;
  }

  // ---- the swaps as texts ----

  predicate IsNumber(s: string) {
    s != "" && forall k :: 0 <= k < |s| ==> '0' <= s[k] <= '9' || s[k] == '.'
  }

  predicate IsCount(s: string) {
    s != "" && forall k :: 0 <= k < |s| ==> '0' <= s[k] <= '9'
  }

  predicate IsSize(s: string) {
    s != "" && forall k :: 0 <= k < |s| ==> '0' <= s[k] <= '9' || 'a' <= s[k] <= 'z'
  }

  /** A physical head replaced by a logical one. */
  predicate Exchanged(core: string, physical: string, tail: string, out: string, logical: string) {
    core == physical + tail && out == logical + tail
  }

  /** The utilities that name a physical side, each with its logical form: margins and paddings, insets, borders, rounded
      corners and text alignment. */
  predicate SwappedWith(core: string, tail: string, out: string) {
    || ((tail == "auto" || IsNumber(tail))
        && (Exchanged(core, "ml-", tail, out, "ms-") || Exchanged(core, "mr-", tail, out, "me-")))
    || (IsNumber(tail)
        && (|| Exchanged(core, "pl-", tail, out, "ps-") || Exchanged(core, "pr-", tail, out, "pe-")
            || Exchanged(core, "left-", tail, out, "start-") || Exchanged(core, "right-", tail, out, "end-")))
    || (IsCount(tail)
        && (Exchanged(core, "border-l-", tail, out, "border-s-") || Exchanged(core, "border-r-", tail, out, "border-e-")))
    || (tail == ""
        && (|| Exchanged(core, "border-l", tail, out, "border-s") || Exchanged(core, "border-r", tail, out, "border-e")
            || Exchanged(core, "text-left", tail, out, "text-start") || Exchanged(core, "text-right", tail, out, "text-end")))
    || (IsSize(tail)
        && (|| Exchanged(core, "rounded-l-", tail, out, "rounded-s-")
            || Exchanged(core, "rounded-r-", tail, out, "rounded-e-")))
  }

  /** One row of the swaps. */
  predicate RowSwaps(i: nat, core: string, tail: string, out: string) {
    i < 14 && TailOk(Swaps()[i].tail, tail) && Exchanged(core, Swaps()[i].prefix, tail, out, Swaps()[i].with)
  }

  lemma RowsAreSwaps(core: string, tail: string, out: string)
    ensures SwappedWith(core, tail, out) <==> exists i: nat :: RowSwaps(i, core, tail, out)
  {
    hide SwappedWith, RowSwaps;
    if SwappedWith(core, tail, out) {
      var i := RowOf(core, tail, out);
    }
    if i: nat :| RowSwaps(i, core, tail, out) {
      assert i < 14 by { RowSwapsBelow(i, core, tail, out); }
      RowIsSwap(i, core, tail, out);
    }
  }

  lemma RowSwapsBelow(i: nat, core: string, tail: string, out: string)
    requires RowSwaps(i, core, tail, out)
    ensures i < 14
  {
  }

  lemma RowIsSwap(i: nat, core: string, tail: string, out: string)
    requires RowSwaps(i, core, tail, out)
    ensures SwappedWith(core, tail, out)
  {
    hide Exchanged;
  }

  lemma RowOf(core: string, tail: string, out: string) returns (i: nat)
    requires SwappedWith(core, tail, out)
    ensures RowSwaps(i, core, tail, out)
  {
    hide Exchanged;
    i := if Exchanged(core, "ml-", tail, out, "ms-") && TailOk(AutoOrNumber, tail) then 0
      else if Exchanged(core, "mr-", tail, out, "me-") && TailOk(AutoOrNumber, tail) then 1
      else if Exchanged(core, "pl-", tail, out, "ps-") && TailOk(Number, tail) then 2
      else if Exchanged(core, "pr-", tail, out, "pe-") && TailOk(Number, tail) then 3
      else if Exchanged(core, "border-l-", tail, out, "border-s-") && TailOk(Digits, tail) then 4
      else if Exchanged(core, "border-r-", tail, out, "border-e-") && TailOk(Digits, tail) then 5
      else if Exchanged(core, "border-l", tail, out, "border-s") && TailOk(Nothing, tail) then 6
      else if Exchanged(core, "border-r", tail, out, "border-e") && TailOk(Nothing, tail) then 7
      else if Exchanged(core, "rounded-l-", tail, out, "rounded-s-") && TailOk(LowerAlnum, tail) then 8
      else if Exchanged(core, "rounded-r-", tail, out, "rounded-e-") && TailOk(LowerAlnum, tail) then 9
      else if Exchanged(core, "text-left", tail, out, "text-start") && TailOk(Nothing, tail) then 10
      else if Exchanged(core, "text-right", tail, out, "text-end") && TailOk(Nothing, tail) then 11
      else if Exchanged(core, "left-", tail, out, "start-") && TailOk(Number, tail) then 12
      else 13;
  }

  /** A utility matches one row. */
  lemma OneSwapMatches(core: string, i: nat, j: nat)
    requires i < 14 && j < 14 && MatchesSwap(Swaps()[i], core) && MatchesSwap(Swaps()[j], core)
    ensures i == j
  {
    hide Swaps, TailOk;
    PrefixNamesSide(i);
    PrefixNamesSide(j);
    MatchedLetters(core, i);
    MatchedLetters(core, j);
    if i != j && SideAt(i) == SideAt(j) == 7 && i % 2 == j % 2 {
      BorderLengths(core, i, j);
    }
  }

  lemma MatchedLetters(core: string, i: nat)
    requires i < 14 && MatchesSwap(Swaps()[i], core)
    ensures forall k :: 0 <= k < |Swaps()[i].prefix| ==> k < |core| && core[k] == Swaps()[i].prefix[k]
  {
    hide Swaps, TailOk;
    var p := Swaps()[i].prefix;
    assert forall k :: 0 <= k < |p| ==> core[k] == core[..|p|][k];
  }

  lemma BorderLengths(core: string, i: nat, j: nat)
    requires i < 14 && j < 14 && SideAt(i) == SideAt(j) == 7 && i != j && i % 2 == j % 2
    ensures !(MatchesSwap(Swaps()[i], core) && MatchesSwap(Swaps()[j], core))
  {
  }

  /** The rewrite exchanges the heads of exactly these utilities. */
  lemma RewritesExactly(core: string, out: string)
    ensures MatchesAny(core) && Rewrite(core) == out <==> exists tail :: SwappedWith(core, tail, out)
  {
    hide Swaps, SwappedWith, TailOk;
    var i := FirstSwap(core, 0);
    if i < 14 && Rewrite(core) == out {
      var tail := core[|Swaps()[i].prefix|..];
      assert RowSwaps(i, core, tail, out);
      RowsAreSwaps(core, tail, out);
    }
    if tail :| SwappedWith(core, tail, out) {
      RowsAreSwaps(core, tail, out);
      var j: nat :| RowSwaps(j, core, tail, out);
      var p := Swaps()[j].prefix;
      assert core[..|p|] == p && core[|p|..] == tail;
      assert MatchesSwap(Swaps()[j], core);
      OneSwapMatches(core, i, j);
    }
  }

  // ---- where the variants end ----

  /** How deep in square brackets the position i is. */
  function Depth(token: string, i: nat): int
    requires i <= |token|
  {
    if i == 0 then 0
    else Depth(token, i - 1) + (if token[i - 1] == '[' then 1 else if token[i - 1] == ']' then -1 else 0)
  }

  predicate EndsVariant(token: string, k: int) {
    0 <= k < |token| && token[k] == ':' && Depth(token, k) == 0
  }

  lemma {:induction false} VariantEndFrom(token: string, i: nat, end: nat)
    requires i <= |token| && end <= i
    requires end == 0 || EndsVariant(token, end - 1)
    requires forall k :: end <= k < i ==> !EndsVariant(token, k)
    ensures var cut := VariantEnd(token, i, Depth(token, i), end);
            && (cut == 0 || EndsVariant(token, cut - 1))
            && forall k :: cut <= k < |token| ==> !EndsVariant(token, k)
    decreases |token| - i
  {
    if i < |token| {
      VariantEndFrom(token, i + 1, if EndsVariant(token, i) then i + 1 else end);
    }
  }

  /** The variants end after the last colon that stands outside square brackets. */
  lemma VariantEndIsLastColon(token: string)
    ensures var cut := VariantEnd(token, 0, 0, 0);
            && (cut == 0 || EndsVariant(token, cut - 1))
            && forall k :: cut <= k < |token| ==> !EndsVariant(token, k)
  {
    VariantEndFrom(token, 0, 0);
  }

  // ---- a rewritten token keeps its shape ----

  /** The characters of a rewritten utility: none of them is a colon, a bracket or a separator. */
  predicate IsPlain(c: char) {
    'a' <= c <= 'z' || IsDigit(c) || c == '.' || c == '-' || c == '!'
  }

  predicate AllPlain(s: string) {
    forall k :: 0 <= k < |s| ==> IsPlain(s[k])
  }

  lemma ReplacementsArePlain(i: nat)
    requires i < 14
    ensures AllPlain(Swaps()[i].with) && Swaps()[i].with != "" && 'a' <= Swaps()[i].with[0] <= 'z'
  {
  }

  lemma RewrittenIsPlain(core: string)
    requires MatchesAny(core)
    ensures AllPlain(Rewrite(core)) && Rewrite(core) != "" && 'a' <= Rewrite(core)[0] <= 'z'
  {
    hide Swaps;
    var i := FirstSwap(core, 0);
    ReplacementsArePlain(i);
  }

  /** Plain text after a token moves no variant boundary. */
  lemma {:induction false} PlainKeepsVariants(a: string, b: string, i: nat, depth: int, end: nat)
    requires i <= |a + b| && end <= i && AllPlain(b)
    ensures VariantEnd(a + b, i, depth, end) == if i <= |a| then VariantEnd(a, i, depth, end) else end
    decreases |a + b| - i
  {
    if i < |a| {
      assert (a + b)[i] == a[i];
      var depth' := if a[i] == '[' then depth + 1 else if a[i] == ']' then depth - 1 else depth;
      var end' := if a[i] == ':' && depth == 0 then i + 1 else end;
      PlainKeepsVariants(a, b, i + 1, depth', end');
    } else if i < |a + b| {
      assert (a + b)[i] == b[i - |a|];
      PlainKeepsVariants(a, b, i + 1, depth, end);
    }
  }

  /** The variants on their own are all variant. */
  lemma {:induction false} VariantsEndThere(token: string, i: nat, depth: int, end: nat)
    requires i <= |token| && end <= i
    ensures var cut := VariantEnd(token, i, depth, end);
            i <= cut ==> VariantEnd(token[..cut], i, depth, end) == cut
    decreases |token| - i
  {
    var cut := VariantEnd(token, i, depth, end);
    if i < cut {
      var depth' := if token[i] == '[' then depth + 1 else if token[i] == ']' then depth - 1 else depth;
      var end' := if token[i] == ':' && depth == 0 then i + 1 else end;
      VariantsEndThere(token, i + 1, depth', end');
    }
  }

  lemma {:induction false} LeadLengthIs(lead: string, core: string)
    requires forall k :: 0 <= k < |lead| ==> lead[k] == '-' || lead[k] == '!'
    requires core != "" && core[0] != '-' && core[0] != '!'
    ensures LeadLength(lead + core) == |lead|
  {
    if lead == "" {
      assert lead + core == core;
    } else {
      LeadLengthIs(lead[1..], core);
      assert (lead + core)[1..] == lead[1..] + core;
    }
  }

  /** A rewritten token has the same variants and modifiers, and the rewritten utility. */
  lemma RewriteKeepsParts(token: string)
    ensures var p := PartsOf(token);
            MatchesAny(p.core) ==>
              PartsOf(p.variants + p.lead + Rewrite(p.core)) == Parts(p.variants, p.lead, Rewrite(p.core))
  {
    hide MatchesAny, Rewrite, VariantEnd, LeadLength;
    var p := PartsOf(token);
    if MatchesAny(p.core) {
      RewrittenIsPlain(p.core);
      VariantsEndThere(token, 0, 0, 0);
      LeadLengthIs(p.lead, Rewrite(p.core));
      PartsTogether(p.variants, p.lead, Rewrite(p.core));
    }
  }

  lemma PartsTogether(variants: string, lead: string, core: string)
    requires VariantEnd(variants, 0, 0, 0) == |variants| && LeadLength(lead + core) == |lead|
    requires AllPlain(lead) && AllPlain(core)
    ensures PartsOf(variants + lead + core) == Parts(variants, lead, core)
  {
    hide VariantEnd, LeadLength;
    var utility := lead + core;
    assert variants + lead + core == variants + utility;
    PlainKeepsVariants(variants, utility, 0, 0, 0);
    assert (variants + utility)[..|variants|] == variants && (variants + utility)[|variants|..] == utility;
    assert utility[..|lead|] == lead && utility[|lead|..] == core;
  }

  /** A token of a physical utility: the utility is exchanged behind its variants and modifiers, unless a variant names a
      physical side itself. */
  lemma TokenOfUtility(variants: string, lead: string, core: string, tail: string, out: string)
    requires variants == "" || EndsVariant(variants, |variants| - 1)
    requires forall k :: 0 <= k < |lead| ==> lead[k] == '-' || lead[k] == '!'
    requires SwappedWith(core, tail, out)
    ensures LogicalToken(variants + lead + core) ==
      if NamesPhysicalSide(variants) then variants + lead + core else variants + lead + out
  {
    hide MatchesAny, Rewrite, VariantEnd, LeadLength, NamesPhysicalSide, SwappedWith, EndsVariant;
    RewritesExactly(core, out);
    PhysicalIsPlain(core);
    VariantEndIsLastColon(variants);
    LeadLengthIs(lead, core);
    PartsTogether(variants, lead, core);
  }

  lemma PhysicalIsPlain(core: string)
    requires MatchesAny(core)
    ensures AllPlain(core) && core != "" && 'a' <= core[0] <= 'z'
  {
    hide Swaps;
    var i := FirstSwap(core, 0);
    PrefixesArePlain(i);
    var p := Swaps()[i].prefix;
    assert core == p + core[|p|..];
  }

  lemma PrefixesArePlain(i: nat)
    requires i < 14
    ensures AllPlain(Swaps()[i].prefix) && Swaps()[i].prefix != "" && 'a' <= Swaps()[i].prefix[0] <= 'z'
  {
  }

  /** A variant names a physical side by its text. */
  lemma PhysicalSides(variants: string)
    ensures NamesPhysicalSide(variants) <==>
      exists before, after :: variants == before + "side=left]" + after || variants == before + "side=right]" + after
  {
    ContainsIff(variants, "side=left]");
    ContainsIff(variants, "side=right]");
  }

  lemma ContainsIff(s: string, part: string)
    ensures Contains(s, part) <==> exists before, after :: s == before + part + after
  {
    if Contains(s, part) {
      var k :| 0 <= k <= |s| && StartsWith(s[k..], part);
      assert s == s[..k] + part + s[k..][|part|..];
    }
    if before, after :| s == before + part + after {
      assert StartsWith(s[|before|..], part);
    }
  }

  /** A rewritten token is left alone, and it is still one token. */
  lemma LogicalTokenIsIdempotent(token: string)
    ensures LogicalToken(LogicalToken(token)) == LogicalToken(token)
  {
    hide MatchesAny, Rewrite, NamesPhysicalSide;
    var p := PartsOf(token);
    if !NamesPhysicalSide(p.variants) && MatchesAny(p.core) {
      RewriteKeepsParts(token);
      RewrittenMatchesNothing(p.core);
    }
  }

  /** A token changes exactly when its utility names a physical side and its variants do not. */
  lemma ChangesExactly(token: string)
    ensures LogicalToken(token) != token <==>
            !NamesPhysicalSide(PartsOf(token).variants) && MatchesAny(PartsOf(token).core)
  {
    hide MatchesAny, Rewrite, NamesPhysicalSide;
    var p := PartsOf(token);
    if !NamesPhysicalSide(p.variants) && MatchesAny(p.core) {
      RewrittenMatchesNothing(p.core);
      RewriteKeepsParts(token);
    }
  }

  predicate IsToken(s: string) {
    s != "" && forall k :: 0 <= k < |s| ==> !IsSeparator(s[k])
  }

  lemma LogicalTokenIsToken(token: string)
    requires IsToken(token)
    ensures IsToken(LogicalToken(token))
  {
    hide MatchesAny, Rewrite, NamesPhysicalSide;
    var p := PartsOf(token);
    if !NamesPhysicalSide(p.variants) && MatchesAny(p.core) {
      RewrittenIsPlain(p.core);
      var result := LogicalToken(token);
      forall k | 0 <= k < |result| ensures !IsSeparator(result[k]) {
        if k < |p.variants + p.lead| {
          assert result[k] == (p.variants + p.lead)[k] == token[k];
        } else {
          assert result[k] == Rewrite(p.core)[k - |p.variants + p.lead|];
        }
      }
    }
  }

  // ---- the rewrite of a text ----

  predicate StartsApart(rest: string) {
    rest == "" || IsSeparator(rest[0])
  }

  lemma {:induction false} TokenLengthIs(token: string, rest: string)
    requires IsToken(token) && StartsApart(rest)
    ensures TokenLength(token + rest) == |token|
  {
    assert (token + rest)[1..] == token[1..] + rest;
    if |token| == 1 {
      assert (token + rest)[1..] == rest;
    } else {
      TokenLengthIs(token[1..], rest);
    }
  }

  lemma RewriteOfToken(token: string, rest: string)
    requires IsToken(token) && StartsApart(rest)
    ensures ToLogical(token + rest) == LogicalToken(token) + ToLogical(rest)
  {
    hide LogicalToken, IsSeparator;
    TokenLengthIs(token, rest);
    assert (token + rest)[..|token|] == token && (token + rest)[|token|..] == rest;
    assert (token + rest)[0] == token[0];
  }

  /** White space, quotes and braces separate tokens, and everything else belongs to one. */
  lemma SeparatorCharacters(c: char)
    ensures IsSeparator(c) <==> c in " \t\n\U{0C}\r\"'`{}"
  {
    var literal := " \t\n\U{0C}\r\"'`{}";
    if IsSeparator(c) {
      assert || c == literal[0] || c == literal[1] || c == literal[2] || c == literal[3] || c == literal[4]
             || c == literal[5] || c == literal[6] || c == literal[7] || c == literal[8] || c == literal[9];
    }
  }

  /** A quoted utility is one token. */
  lemma QuotedToken(before: string, token: string, after: string, quote: char)
    requires quote in " \t\n\U{0C}\r\"'`{}" && IsToken(token)
    ensures ToLogical(before + [quote] + (token + ([quote] + after)))
         == ToLogical(before) + [quote] + (LogicalToken(token) + ([quote] + ToLogical(after)))
  {
    hide ToLogical, LogicalToken, IsSeparator;
    SeparatorCharacters(quote);
    RewriteDivides(before, quote, token + ([quote] + after));
    RewriteOfToken(token, [quote] + after);
    RewriteOfSeparator(quote, after);
  }

  lemma RewriteOfNothing()
    ensures ToLogical("") == ""
  {
  }

  lemma RewriteOfSeparator(sep: char, rest: string)
    requires IsSeparator(sep)
    ensures ToLogical([sep] + rest) == [sep] + ToLogical(rest)
  {
    hide IsSeparator;
    assert ([sep] + rest)[1..] == rest;
  }

  lemma RewriteStartsApart(rest: string)
    requires StartsApart(rest)
    ensures StartsApart(ToLogical(rest))
  {
    hide LogicalToken, IsSeparator;
  }

  lemma {:induction false} ToLogicalIsIdempotent(body: string)
    ensures ToLogical(ToLogical(body)) == ToLogical(body)
    decreases |body|
  {
    hide LogicalToken, IsSeparator;
    if body == "" {
    } else if IsSeparator(body[0]) {
      ToLogicalIsIdempotent(body[1..]);
      assert ToLogical(body)[1..] == ToLogical(body[1..]);
    } else {
      var n := TokenLength(body);
      var token, rest := body[..n], body[n..];
      ToLogicalIsIdempotent(rest);
      LogicalTokenIsToken(token);
      LogicalTokenIsIdempotent(token);
      RewriteStartsApart(rest);
      RewriteOfToken(LogicalToken(token), ToLogical(rest));
    }
  }

  /** The tokens of a text, in order. */
  function Tokens(body: string): seq<string>
    decreases |body|
  {
    if body == "" then []
    else if IsSeparator(body[0]) then Tokens(body[1..])
    else
      var n := TokenLength(body);
      [body[..n]] + Tokens(body[n..])
  }

  /** A text with every token replaced by one mark: its separators and where the tokens stand between them. */
  function Outline(body: string): string
    decreases |body|
  {
    if body == "" then ""
    else if IsSeparator(body[0]) then [body[0]] + Outline(body[1..])
    else "x" + Outline(body[TokenLength(body)..])
  }

  function LogicalTokens(tokens: seq<string>): (r: seq<string>) {
    seq(|tokens|, k requires 0 <= k < |tokens| => LogicalToken(tokens[k]))
  }

  lemma OutlineOfToken(token: string, rest: string)
    requires IsToken(token) && StartsApart(rest)
    ensures Tokens(token + rest) == [token] + Tokens(rest)
    ensures Outline(token + rest) == "x" + Outline(rest)
  {
    hide IsSeparator;
    TokenLengthIs(token, rest);
    assert (token + rest)[..|token|] == token && (token + rest)[|token|..] == rest;
    assert (token + rest)[0] == token[0];
  }

  lemma OutlineOfSeparator(sep: char, rest: string)
    requires IsSeparator(sep)
    ensures Tokens([sep] + rest) == Tokens(rest)
    ensures Outline([sep] + rest) == [sep] + Outline(rest)
  {
    hide IsSeparator;
    assert ([sep] + rest)[1..] == rest;
  }

  lemma LogicalTokensOf(token: string, tokens: seq<string>)
    ensures LogicalTokens([token] + tokens) == [LogicalToken(token)] + LogicalTokens(tokens)
  {
    hide LogicalToken;
  }

  /** The rewrite maps the tokens one by one and moves no separator. */
  lemma {:induction false} RewriteKeepsOutline(body: string)
    ensures Tokens(ToLogical(body)) == LogicalTokens(Tokens(body))
    ensures Outline(ToLogical(body)) == Outline(body)
    decreases |body|
  {
    if body != "" {
      hide LogicalToken, IsSeparator, TokenLength, ToLogical, Tokens, Outline, LogicalTokens;
      var n := if IsSeparator(body[0]) then 1 else TokenLength(body);
      var token, rest := body[..n], body[n..];
      assert body == token + rest;
      RewriteKeepsOutline(rest);
      if IsSeparator(body[0]) {
        assert token == [body[0]];
        RewriteOfSeparator(body[0], rest);
        OutlineOfSeparator(body[0], rest);
        OutlineOfSeparator(body[0], ToLogical(rest));
      } else {
        RewriteOfToken(token, rest);
        OutlineOfToken(token, rest);
        LogicalTokenIsToken(token);
        RewriteStartsApart(rest);
        OutlineOfToken(LogicalToken(token), ToLogical(rest));
        LogicalTokensOf(token, Tokens(rest));
      }
    }
  }

  // ---- text and lines ----

  /** A separator divides a text for the rewrite. */
  lemma {:induction false} RewriteDivides(a: string, sep: char, b: string)
    requires IsSeparator(sep)
    ensures ToLogical(a + [sep] + b) == ToLogical(a) + [sep] + ToLogical(b)
    decreases |a|
  {
    hide LogicalToken, IsSeparator, ToLogical, TokenLength;
    if a == "" {
      RewriteOfSeparator(sep, b);
      assert ToLogical("") == "" && a + [sep] + b == [sep] + b by { RewriteOfNothing(); }
    } else {
      var n := if IsSeparator(a[0]) then 1 else TokenLength(a);
      var tail := a[n..] + [sep] + b;
      RewriteDivides(a[n..], sep, b);
      assert a + [sep] + b == a[..n] + tail && a == a[..n] + a[n..];
      if IsSeparator(a[0]) {
        assert a[..n] == [a[0]];
        RewriteOfSeparator(a[0], tail);
        RewriteOfSeparator(a[0], a[n..]);
      } else {
        RewriteOfToken(a[..n], tail);
        RewriteOfToken(a[..n], a[n..]);
      }
    }
  }

  function LogicalLines(lines: seq<string>): (r: seq<string>)
    ensures |r| == |lines|
    ensures forall k :: 0 <= k < |lines| ==> r[k] == ToLogical(lines[k])
  {
    seq(|lines|, k requires 0 <= k < |lines| => ToLogical(lines[k]))
  }

  /** Rewriting joined lines is joining the rewritten lines. */
  lemma {:induction false} RewriteIsLineByLine(lines: seq<string>)
    ensures ToLogical(Join(lines)) == Join(LogicalLines(lines))
  {
    if |lines| > 1 {
      RewriteIsLineByLine(lines[1..]);
      RewriteDivides(lines[0], '\n', Join(lines[1..]));
      assert LogicalLines(lines)[1..] == LogicalLines(lines[1..]);
      assert "\n" == ['\n'];
    }
  }

  lemma {:induction false} RewriteOfLine(line: string)
    requires IsLine(line)
    ensures IsLine(ToLogical(line))
    decreases |line|
  {
    hide LogicalToken;
    if line == "" {
    } else if IsSeparator(line[0]) {
      RewriteOfLine(line[1..]);
      assert line[0] in line;
    } else {
      var n := TokenLength(line);
      RewriteOfLine(line[n..]);
      LogicalTokenIsToken(line[..n]);
      assert IsSeparator('\n');
    }
  }

  /** The lines of a rewritten text are the rewritten lines. */
  lemma RewriteOfLines(body: string)
    ensures Split(ToLogical(body)) == LogicalLines(Split(body))
  {
    hide ToLogical;
    var lines := Split(body);
    JoinOfSplit(body);
    RewriteIsLineByLine(lines);
    forall k | 0 <= k < |lines| ensures IsLine(LogicalLines(lines)[k]) {
      RewriteOfLine(lines[k]);
    }
    SplitOfJoin(LogicalLines(lines));
  }

  /** A text changes exactly when one of its lines does. */
  lemma ChangesIffALineDoes(body: string)
    ensures ToLogical(body) == body <==> forall k :: 0 <= k < |Split(body)| ==> ToLogical(Split(body)[k]) == Split(body)[k]
  {
    hide ToLogical;
    RewriteOfLines(body);
    JoinOfSplit(body);
    JoinOfSplit(ToLogical(body));
    var lines := Split(body);
    if forall k :: 0 <= k < |lines| ==> ToLogical(lines[k]) == lines[k] {
      assert LogicalLines(lines) == lines;
    }
  }

  // ---- the gate ----

  /** A reported line, counted from one, of the file at a position in the walk. */
  datatype Problem = Problem(file: nat, line: nat)

  function LineProblems(file: nat, lines: seq<string>, n: nat): seq<Problem>
    requires n <= |lines|
  {
    if n == 0 then []
    else LineProblems(file, lines, n - 1) + if ToLogical(lines[n - 1]) != lines[n - 1] then [Problem(file, n)] else []
  }

  function FileProblems(file: nat, body: string): seq<Problem> {
    LineProblems(file, Split(body), |Split(body)|)
  }

  /** What the gate reports of the first n files. */
  function Problems(bodies: seq<string>, n: nat): seq<Problem>
    requires n <= |bodies|
  {
    if n == 0 then [] else Problems(bodies, n - 1) + FileProblems(n - 1, bodies[n - 1])
  }

  function Fixed(bodies: seq<string>): seq<string> {
    seq(|bodies|, f requires 0 <= f < |bodies| => ToLogical(bodies[f]))
  }

  lemma {:induction false} LineProblemsAre(file: nat, lines: seq<string>, n: nat, p: Problem)
    requires n <= |lines|
    ensures p in LineProblems(file, lines, n) <==>
            p.file == file && 1 <= p.line <= n && ToLogical(lines[p.line - 1]) != lines[p.line - 1]
  {
    hide ToLogical;
    if n > 0 {
      LineProblemsAre(file, lines, n - 1, p);
      var last := if ToLogical(lines[n - 1]) != lines[n - 1] then [Problem(file, n)] else [];
      assert LineProblems(file, lines, n) == LineProblems(file, lines, n - 1) + last;
    }
  }

  lemma UnchangedHasNoProblems(file: nat, body: string)
    ensures FileProblems(file, body) == [] <==> ToLogical(body) == body
  {
    hide ToLogical, LineProblems;
    ChangesIffALineDoes(body);
    var lines := Split(body);
    var problems := FileProblems(file, body);
    if problems != [] {
      LineProblemsAre(file, lines, |lines|, problems[0]);
      assert ToLogical(lines[problems[0].line - 1]) != lines[problems[0].line - 1];
    } else {
      forall k | 0 <= k < |lines| ensures ToLogical(lines[k]) == lines[k] {
        LineProblemsAre(file, lines, |lines|, Problem(file, k + 1));
        assert lines[Problem(file, k + 1).line - 1] == lines[k];
      }
    }
  }

  predicate LineChanges(bodies: seq<string>, p: Problem) {
    && p.file < |bodies|
    && 1 <= p.line <= |Split(bodies[p.file])|
    && ToLogical(Split(bodies[p.file])[p.line - 1]) != Split(bodies[p.file])[p.line - 1]
  }

  /** The report names the lines that the fix changes, and no other line. */
  lemma {:induction false} ReportsChangedLines(bodies: seq<string>, n: nat, p: Problem)
    requires n <= |bodies|
    ensures p in Problems(bodies, n) <==> p.file < n && LineChanges(bodies, p)
  {
    hide ToLogical;
    hide LineProblems, Split;
    if n > 0 {
      ReportsChangedLines(bodies, n - 1, p);
      LineProblemsAre(n - 1, Split(bodies[n - 1]), |Split(bodies[n - 1])|, p);
    }
  }

  lemma {:induction false} NothingReportedIffFixed(bodies: seq<string>, n: nat)
    requires n <= |bodies|
    ensures Problems(bodies, n) == [] <==> forall f :: 0 <= f < n ==> ToLogical(bodies[f]) == bodies[f]
  {
    hide FileProblems, ToLogical;
    if n > 0 {
      NothingReportedIffFixed(bodies, n - 1);
      UnchangedHasNoProblems(n - 1, bodies[n - 1]);
    }
  }

  /** A run with the fix changes no file exactly when a plain run reports nothing; after it, nothing is reported. */
  lemma FixThenCheck(bodies: seq<string>)
    ensures Fixed(bodies) == bodies <==> Problems(bodies, |bodies|) == []
    ensures Problems(Fixed(bodies), |Fixed(bodies)|) == []
  {
    hide ToLogical;
    NothingReportedIffFixed(bodies, |bodies|);
    forall f | 0 <= f < |bodies| ensures ToLogical(Fixed(bodies)[f]) == Fixed(bodies)[f] {
      ToLogicalIsIdempotent(bodies[f]);
    }
    NothingReportedIffFixed(Fixed(bodies), |bodies|);
    assert Fixed(bodies) == bodies ==> forall f :: 0 <= f < |bodies| ==> ToLogical(bodies[f]) == Fixed(bodies)[f];
  }

  /** The files once the first n are fixed. */
  function FixedUpto(bodies: seq<string>, n: nat): (r: seq<string>)
    ensures |r| == |bodies|
  {
    seq(|bodies|, f requires 0 <= f < |bodies| => if f < n then ToLogical(bodies[f]) else bodies[f])
  }

  lemma NothingFixed(bodies: seq<string>)
    ensures FixedUpto(bodies, 0) == bodies
  {
  }

  lemma NothingReported(bodies: seq<string>)
    ensures Problems(bodies, 0) == []
  {
  }

  lemma AllFixed(bodies: seq<string>)
    ensures FixedUpto(bodies, |bodies|) == Fixed(bodies)
  {
    hide ToLogical;
  }

  lemma FixNext(bodies: seq<string>, n: nat)
    requires n < |bodies|
    ensures FixedUpto(bodies, n)[n] == bodies[n]
    ensures FixedUpto(bodies, n + 1) == FixedUpto(bodies, n)[n := ToLogical(bodies[n])]
    ensures ToLogical(bodies[n]) == bodies[n] ==> FixedUpto(bodies, n + 1) == FixedUpto(bodies, n)
  {
    hide ToLogical;
  }

  lemma ReportNext(bodies: seq<string>, n: nat)
    requires n < |bodies|
    ensures Problems(bodies, n + 1) == Problems(bodies, n) + FileProblems(n, bodies[n])
    ensures FileProblems(n, bodies[n]) == [] ==> Problems(bodies, n + 1) == Problems(bodies, n)
  {
    hide FileProblems;
  }

  /** The frontend sources in walk order. */
  class SourceTree {
    var bodies: seq<string>

    constructor (bodies: seq<string>)
      ensures this.bodies == bodies
    {
      this.bodies := bodies;
    }

    method CheckLogicalProperties(fix: bool) returns (problems: seq<Problem>)
      modifies this
      ensures fix ==> problems == [] && bodies == Fixed(old(bodies))
      ensures !fix ==> bodies == old(bodies) && problems == Problems(bodies, |bodies|)
    {
      hide FileProblems, ToLogical, Problems, FixedUpto;
      assert bodies == FixedUpto(bodies, 0) by { NothingFixed(bodies); }
      assert Problems(bodies, 0) == [] by { NothingReported(bodies); }
      problems := [];
      for f := 0 to |bodies|
        invariant |bodies| == |old(bodies)|
        invariant bodies == if fix then FixedUpto(old(bodies), f) else old(bodies)
        invariant problems == if fix then [] else Problems(old(bodies), f)
      {
        FixNext(old(bodies), f);
        ReportNext(old(bodies), f);
        var body := bodies[f];
        var patched := ToLogical(body);
        UnchangedHasNoProblems(f, body);
        if patched != body {
          if fix {
            bodies := bodies[f := patched];
          } else {
            var reported := ReportLines(f, body);
            problems := problems + reported;
          }
        }
      }
      AllFixed(old(bodies));
    }

    static method ReportLines(file: nat, body: string) returns (problems: seq<Problem>)
      ensures problems == FileProblems(file, body)
    {
      var lines := Split(body);
      problems := [];
      for i := 0 to |lines|
        invariant problems == LineProblems(file, lines, i)
      {
        if ToLogical(lines[i]) != lines[i] {
          problems := problems + [Problem(file, i + 1)];
        }
      }
    }
  }
}
