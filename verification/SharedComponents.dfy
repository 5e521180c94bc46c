/** The generator that copies each shared component a spec uses into the spec's two regions. */
module SharedComponents {
  import opened Wrappers
  import opened Lines
  import opened Regions

  /** A component: its name and its definition rendered as YAML text. */
  datatype Entry = Entry(name: string, rendered: string)

  /** The shared source: the components each region can carry, in source order. */
  datatype Source = Source(schemas: seq<Entry>, responses: seq<Entry>)

  const SCHEMAS := "schemas"
  const RESPONSES := "responses"

  /** How a list of kept components renders as a block; the YAML encoder in the source. */
  type Renderer = seq<Entry> -> string

  // ---- references in a text ----

  predicate IsRefChar(c: char) {
    'A' <= c <= 'Z' || 'a' <= c <= 'z' || '0' <= c <= '9' || c == '_' || c == '.' || c == '-'
  }

  function RunLength(s: string): (n: nat)
    ensures n <= |s|
  {
    if s != [] && IsRefChar(s[0]) then 1 + RunLength(s[1..]) else 0
  }

  const PATH := "#/components/"

  /** The component name that a reference of the given kind at the head of the text names. */
  function RefHere(doc: string, kind: string): string {
    var head := PATH + kind + "/";
    if head <= doc then doc[|head|..][..RunLength(doc[|head|..])] else ""
  }

  /** All references, left to right; a match is not searched again. */
  function RefsIn(doc: string): seq<string>
    decreases |doc|
  {
    if doc == [] then []
    else if RefHere(doc, SCHEMAS) != "" then
      var name := RefHere(doc, SCHEMAS);
      [SCHEMAS + "/" + name] + RefsIn(doc[|PATH| + |SCHEMAS| + 1 + |name|..])
    else if RefHere(doc, RESPONSES) != "" then
      var name := RefHere(doc, RESPONSES);
      [RESPONSES + "/" + name] + RefsIn(doc[|PATH| + |RESPONSES| + 1 + |name|..])
    else RefsIn(doc[1..])
  }

  const UPPER := "ABCDEFGHIJKLMNOPQRSTUVWXYZ"
  const LOWER := "abcdefghijklmnopqrstuvwxyz"
  const DIGITS := "0123456789"

  lemma UpperAt(i: nat)
    ensures |UPPER| == 26 && (i < 26 ==> UPPER[i] as nat == 'A' as nat + i)
  {
  }

  lemma LowerAt(i: nat)
    ensures |LOWER| == 26 && (i < 26 ==> LOWER[i] as nat == 'a' as nat + i)
  {
  }

  lemma DigitAt(i: nat)
    ensures |DIGITS| == 10 && (i < 10 ==> DIGITS[i] as nat == '0' as nat + i)
  {
  }

  predicate IsNameChar(c: char) {
    c in UPPER || c in LOWER || c in DIGITS || c == '_' || c == '.' || c == '-'
  }

  lemma NameChars(c: char)
    ensures IsNameChar(c) <==> IsRefChar(c)
  {
    hide UPPER, LOWER, DIGITS;
    UpperAt(if 'A' <= c <= 'Z' then c as nat - 'A' as nat else 0);
    LowerAt(if 'a' <= c <= 'z' then c as nat - 'a' as nat else 0);
    DigitAt(if '0' <= c <= '9' then c as nat - '0' as nat else 0);
    if i: nat :| i < 26 && UPPER[i] == c {
      UpperAt(i);
    }
    if i: nat :| i < 26 && LOWER[i] == c {
      LowerAt(i);
    }
    if i: nat :| i < 10 && DIGITS[i] == c {
      DigitAt(i);
    }
  }

  /** A reference starts at i: the path of one of the two sections, and then the whole of a name. */
  ghost predicate RefAt(doc: string, i: nat, section: string, name: string) {
    && (section == "schemas" || section == "responses")
    && name != "" && (forall k :: 0 <= k < |name| ==> IsNameChar(name[k]))
    && i <= |doc| && "#/components/" + section + "/" + name <= doc[i..]
    && var end := i + |"#/components/" + section + "/" + name|;
       end == |doc| || !IsNameChar(doc[end])
  }

  lemma RunIsMaximal(s: string, n: nat)
    requires n <= |s| && (forall k :: 0 <= k < n ==> IsRefChar(s[k])) && (n == |s| || !IsRefChar(s[n]))
    ensures RunLength(s) == n
  {
    hide IsRefChar;
    if n > 0 {
      RunIsMaximal(s[1..], n - 1);
    }
  }

  lemma RunIsRefChars(s: string)
    ensures forall k :: 0 <= k < RunLength(s) ==> IsRefChar(s[k])
    ensures RunLength(s) == |s| || !IsRefChar(s[RunLength(s)])
  {
    hide IsRefChar;
    if s != [] && IsRefChar(s[0]) {
      RunIsRefChars(s[1..]);
    }
  }

  lemma RefHereIs(doc: string, section: string, name: string)
    requires section == "schemas" || section == "responses"
    ensures RefAt(doc, 0, section, name) <==> name != "" && RefHere(doc, section) == name
  {
    hide IsRefChar, IsNameChar, RunLength;
    var head := PATH + section + "/";
    assert head == "#/components/" + section + "/";
    assert doc[0..] == doc;
    forall c ensures IsRefChar(c) <==> IsNameChar(c) {
      NameChars(c);
    }
    if head <= doc {
      var rest := doc[|head|..];
      RunIsRefChars(rest);
      if RefAt(doc, 0, section, name) {
        assert head + name <= doc && rest[..|name|] == name;
        RunIsMaximal(rest, |name|);
      }
      if name != "" && RefHere(doc, section) == name {
        assert doc == head + rest && rest[..|name|] == name;
        assert head + name <= doc;
      }
    }
  }

  lemma RefShifts(doc: string, n: nat, j: nat, section: string, name: string)
    requires n <= |doc|
    ensures RefAt(doc[n..], j, section, name) <==> RefAt(doc, n + j, section, name)
  {
    hide IsNameChar;
    if n + j <= |doc| {
      assert doc[n..][j..] == doc[n + j..];
    }
  }

  /** A reference has one `#`, in front. */
  lemma RefStarts(doc: string, i: nat, section: string, name: string)
    requires RefAt(doc, i, section, name)
    ensures i < |doc| && doc[i] == '#'
  {
    hide IsNameChar;
    assert doc[i..][0] == ("#/components/" + section + "/" + name)[0];
  }

  lemma RefHasOneHash(doc: string, section: string, name: string, i: nat)
    requires RefAt(doc, 0, section, name) && 0 < i < |"#/components/" + section + "/" + name|
    ensures doc[i] != '#'
  {
    hide IsNameChar;
    var text := "#/components/" + section + "/" + name;
    assert doc[0..] == doc && doc[i] == text[i];
    if i < |"#/components/" + section + "/"| {
      assert text[i] == ("#/components/" + section + "/")[i];
    } else {
      var k := i - |"#/components/" + section + "/"|;
      assert text[i] == name[k];
      HashIsNoNameChar();
    }
  }

  lemma HashIsNoNameChar()
    ensures !IsNameChar('#')
  {
    hide IsNameChar;
    NameChars('#');
  }

  lemma OneSectionHere(doc: string, name: string, other: string)
    requires RefAt(doc, 0, "schemas", name)
    ensures !RefAt(doc, 0, "responses", other)
  {
    hide IsNameChar;
    assert doc[0..] == doc;
    assert doc[13] == ("#/components/" + "schemas" + "/" + name)[13] == 's';
    assert ("#/components/" + "responses" + "/" + other)[13] == 'r';
  }

  ghost predicate Refers(doc: string, r: string) {
    exists i: nat, section, name :: RefAt(doc, i, section, name) && r == section + "/" + name
  }

  /** Behind a reference at the head the search goes on after it, and nothing is missed. */
  lemma RefersBehind(doc: string, section: string, name: string, r: string)
    requires RefAt(doc, 0, section, name)
    ensures |"#/components/" + section + "/" + name| <= |doc|
    ensures Refers(doc, r) <==>
      r == section + "/" + name || Refers(doc[|"#/components/" + section + "/" + name|..], r)
  {
    hide RefAt;
    var n := |"#/components/" + section + "/" + name|;
    assert n <= |doc| by { HeadFits(doc, section, name); }
    if Refers(doc, r) {
      var i: nat, s, m :| RefAt(doc, i, s, m) && r == s + "/" + m;
      RefStarts(doc, i, s, m);
      if i == 0 {
        OneNameHere(doc, section, name, s, m);
      } else if i < n {
        RefHasOneHash(doc, section, name, i);
        assert false;
      } else {
        RefShifts(doc, n, i - n, s, m);
      }
    }
    if Refers(doc[n..], r) {
      var j: nat, s, m :| RefAt(doc[n..], j, s, m) && r == s + "/" + m;
      RefShifts(doc, n, j, s, m);
    }
  }

  lemma HeadFits(doc: string, section: string, name: string)
    requires RefAt(doc, 0, section, name)
    ensures |"#/components/" + section + "/" + name| <= |doc|
  {
  }

  lemma OneNameHere(doc: string, section: string, name: string, other: string, m: string)
    requires RefAt(doc, 0, section, name) && RefAt(doc, 0, other, m)
    ensures section == other && name == m
  {
    hide RefAt, RefHere;
    assert (section == "schemas" || section == "responses") && (other == "schemas" || other == "responses") by {
      KnownSection(doc, section, name);
      KnownSection(doc, other, m);
    }
    if section != other {
      OneSectionHere(doc, if section == "schemas" then name else m, if section == "schemas" then m else name);
      assert false;
    }
    RefHereIs(doc, section, name);
    RefHereIs(doc, other, m);
  }

  lemma KnownSection(doc: string, section: string, name: string)
    requires RefAt(doc, 0, section, name)
    ensures section == "schemas" || section == "responses"
  {
  }

  /** The references found in a text are those it holds. */
  lemma {:induction false} RefsInAreReferences(doc: string, r: string)
    ensures r in RefsIn(doc) <==> Refers(doc, r)
    decreases |doc|
  {
    hide RefAt, RefHere, Refers;
    RefHereIs(doc, "schemas", RefHere(doc, SCHEMAS));
    RefHereIs(doc, "responses", RefHere(doc, RESPONSES));
    if doc == [] {
      NothingRefers(r);
    } else if RefHere(doc, SCHEMAS) != "" {
      RefersBehind(doc, "schemas", RefHere(doc, SCHEMAS), r);
      RefsInAreReferences(doc[|PATH| + |SCHEMAS| + 1 + |RefHere(doc, SCHEMAS)|..], r);
    } else if RefHere(doc, RESPONSES) != "" {
      RefersBehind(doc, "responses", RefHere(doc, RESPONSES), r);
      RefsInAreReferences(doc[|PATH| + |RESPONSES| + 1 + |RefHere(doc, RESPONSES)|..], r);
    } else {
      RefersLater(doc, r);
      RefsInAreReferences(doc[1..], r);
    }
  }

  lemma NothingRefers(r: string)
    ensures !Refers([], r)
  {
    hide RefAt;
    if Refers([], r) {
      var i: nat, s, m :| RefAt([], i, s, m) && r == s + "/" + m;
      RefStarts([], i, s, m);
      assert false;
    }
  }

  lemma RefersLater(doc: string, r: string)
    requires doc != [] && RefHere(doc, SCHEMAS) == "" && RefHere(doc, RESPONSES) == ""
    ensures Refers(doc, r) <==> Refers(doc[1..], r)
  {
    hide RefAt, RefHere;
    if Refers(doc, r) {
      var i: nat, s, m :| RefAt(doc, i, s, m) && r == s + "/" + m;
      if i == 0 {
        KnownSection(doc, s, m);
        RefHereIs(doc, s, m);
        assert false;
      }
      RefShifts(doc, 1, i - 1, s, m);
    }
    if Refers(doc[1..], r) {
      var j: nat, s, m :| RefAt(doc[1..], j, s, m) && r == s + "/" + m;
      RefShifts(doc, 1, j, s, m);
    }
  }

  // ---- reachability ----

  /** Rendered definitions by reference; the last of two equal names wins. */
  function Named(key: string, entries: seq<Entry>): map<string, string> {
    if entries == [] then map[]
    else Named(key, entries[..|entries| - 1])[key + "/" + entries[|entries| - 1].name := entries[|entries| - 1].rendered]
  }

  function Shared(source: Source): map<string, string> {
    Named(SCHEMAS, source.schemas) + Named(RESPONSES, source.responses)
  }

  ghost predicate IsClosed(shared: map<string, string>, s: set<string>) {
    forall r, q :: r in s && r in shared && q in RefsIn(shared[r]) && q in shared ==> q in s
  }

  ghost predicate HoldsSeeds(shared: map<string, string>, seeds: seq<string>, s: set<string>) {
    forall q :: q in seeds && q in shared ==> q in s
  }

  /** The least set that holds the shared seeds and is closed under references. */
  ghost function Least(shared: map<string, string>, seeds: seq<string>): set<string> {
    set r | r in shared && forall s: set<string> :: IsClosed(shared, s) && HoldsSeeds(shared, seeds, s) ==> r in s
  }

  lemma LeastIs(shared: map<string, string>, seeds: seq<string>, seen: set<string>)
    requires seen <= shared.Keys && IsClosed(shared, seen) && HoldsSeeds(shared, seeds, seen)
    requires forall s: set<string> :: IsClosed(shared, s) && HoldsSeeds(shared, seeds, s) ==> seen <= s
    ensures seen == Least(shared, seeds)
  {
    forall r | r in Least(shared, seeds) ensures r in seen {
      assert IsClosed(shared, seen) && HoldsSeeds(shared, seeds, seen);
    }
  }

  /** The worklist of `reachable` stops with the least closed set, although it pushes duplicates. */
  method Reachable(shared: map<string, string>, seeds: seq<string>) returns (seen: set<string>)
    ensures seen == Least(shared, seeds)
    ensures seen <= shared.Keys && IsClosed(shared, seen) && HoldsSeeds(shared, seeds, seen)
  {
    hide IsClosed, HoldsSeeds, Least, AreReached, AreFollowed, RefsIn;
    var pending := seeds;
    seen := {};
    NothingSeen(shared, seeds);
    while |pending| > 0
      invariant seen <= shared.Keys
      invariant AreFollowed(shared, seeds, seen, pending)
      invariant AreReached(shared, seeds, seen, pending)
      decreases shared.Keys - seen, |pending|
    {
      var ref := pending[|pending| - 1];
      ghost var before := pending;
      pending := pending[..|pending| - 1];
      assert before == pending + [ref];
      if ref in seen || ref !in shared {
        DroppedReference(shared, seeds, seen, pending, ref);
        continue;
      }
      ghost var unseen := shared.Keys - seen;
      FollowedReference(shared, seeds, seen, pending, ref);
      seen := seen + {ref};
      assert ref in unseen;
      pending := pending + RefsIn(shared[ref]);
    }
    assert pending == [];
    AllFollowed(shared, seeds, seen);
  }

  /** Every shared seed and every shared reference of a seen component is seen or pending. */
  ghost predicate AreFollowed(shared: map<string, string>, seeds: seq<string>, seen: set<string>, pending: seq<string>)
    requires seen <= shared.Keys
  {
    && (forall q :: q in seeds && q in shared ==> q in seen || q in pending)
    && forall r, q :: r in seen && q in RefsIn(shared[r]) && q in shared ==> q in seen || q in pending
  }

  /** What is seen or pending belongs to every closed set with the seeds. */
  ghost predicate AreReached(shared: map<string, string>, seeds: seq<string>, seen: set<string>, pending: seq<string>) {
    forall s: set<string> :: IsClosed(shared, s) && HoldsSeeds(shared, seeds, s) ==>
      seen <= s && forall q :: q in pending && q in shared ==> q in s
  }

  lemma NothingSeen(shared: map<string, string>, seeds: seq<string>)
    ensures AreFollowed(shared, seeds, {}, seeds) && AreReached(shared, seeds, {}, seeds)
  {
    hide RefsIn, IsClosed;
  }

  lemma DroppedReference(shared: map<string, string>, seeds: seq<string>, seen: set<string>, pending: seq<string>, ref: string)
    requires seen <= shared.Keys && (ref in seen || ref !in shared)
    requires AreFollowed(shared, seeds, seen, pending + [ref]) && AreReached(shared, seeds, seen, pending + [ref])
    ensures AreFollowed(shared, seeds, seen, pending) && AreReached(shared, seeds, seen, pending)
  {
    hide RefsIn, IsClosed, HoldsSeeds;
  }

  lemma FollowedReference(shared: map<string, string>, seeds: seq<string>, seen: set<string>, pending: seq<string>, ref: string)
    requires seen <= shared.Keys && ref in shared
    requires AreFollowed(shared, seeds, seen, pending + [ref]) && AreReached(shared, seeds, seen, pending + [ref])
    ensures AreFollowed(shared, seeds, seen + {ref}, pending + RefsIn(shared[ref]))
    ensures AreReached(shared, seeds, seen + {ref}, pending + RefsIn(shared[ref]))
  {
    hide RefsIn, HoldsSeeds;
    var refs := RefsIn(shared[ref]);
    forall s: set<string> | IsClosed(shared, s) && HoldsSeeds(shared, seeds, s)
      ensures seen + {ref} <= s && forall q :: q in pending + refs && q in shared ==> q in s
    {
      assert ref in pending + [ref];
      assert forall q :: q in pending ==> q in pending + [ref];
    }
  }

  lemma AllFollowed(shared: map<string, string>, seeds: seq<string>, seen: set<string>)
    requires seen <= shared.Keys && AreFollowed(shared, seeds, seen, []) && AreReached(shared, seeds, seen, [])
    ensures seen == Least(shared, seeds) && IsClosed(shared, seen) && HoldsSeeds(shared, seeds, seen)
  {
    hide RefsIn, Least;
    assert IsClosed(shared, seen) && HoldsSeeds(shared, seeds, seen);
    LeastIs(shared, seeds, seen);
  }

  // ---- blocks ----

  /** The reference to an entry of a section. */
  function RefOf(key: string, e: Entry): string {
    key + "/" + e.name
  }

  function Kept(key: string, entries: seq<Entry>, keep: set<string>): seq<Entry> {
    if entries == [] then []
    else (if RefOf(key, entries[0]) in keep then [entries[0]] else []) + Kept(key, entries[1..], keep)
  }

  function RenderMap(entries: seq<Entry>, render: Renderer): string {
    if entries == [] then "" else render(entries)
  }

  datatype Blocks = Blocks(schemas: string, responses: string)

  ghost function BlocksFor(source: Source, doc: string, render: Renderer): Blocks {
    var keep := Least(Shared(source), RefsIn(StripRegions(doc)));
    Blocks(
      RenderMap(Kept(SCHEMAS, source.schemas, keep), render),
      RenderMap(Kept(RESPONSES, source.responses, keep), render))
  }

  /** The source defines a reference: the text is that of the last component with the name. */
  ghost predicate Defines(source: Source, ref: string, text: string) {
    DefinesIn("schemas", source.schemas, ref, text) || DefinesIn("responses", source.responses, ref, text)
  }

  ghost predicate DefinesIn(key: string, entries: seq<Entry>, ref: string, text: string) {
    exists i :: IsLastNamed(entries, i) && ref == key + "/" + entries[i].name && text == entries[i].rendered
  }

  ghost predicate IsLastNamed(entries: seq<Entry>, i: int) {
    0 <= i < |entries| && forall j :: i < j < |entries| ==> entries[j].name != entries[i].name
  }

  lemma {:induction false} NamedIs(key: string, entries: seq<Entry>, ref: string, text: string)
    ensures (ref in Named(key, entries) && Named(key, entries)[ref] == text) <==> DefinesIn(key, entries, ref, text)
    decreases |entries|
  {
    if entries != [] {
      var rest, last := entries[..|entries| - 1], entries[|entries| - 1];
      NamedIs(key, rest, ref, text);
      assert entries == rest + [last];
      if ref == key + "/" + last.name {
        assert IsLastNamed(entries, |entries| - 1);
        forall i | IsLastNamed(entries, i) && ref == key + "/" + entries[i].name ensures i == |entries| - 1 {
          SameName(key, entries[i].name, last.name);
        }
      } else {
        NamedInRest(key, rest, last, ref, text);
      }
    }
  }

  lemma SameName(key: string, a: string, b: string)
    requires key + "/" + a == key + "/" + b
    ensures a == b
  {
    assert (key + "/" + a)[|key| + 1..] == a && (key + "/" + b)[|key| + 1..] == b;
  }

  lemma NamedInRest(key: string, rest: seq<Entry>, last: Entry, ref: string, text: string)
    requires ref != key + "/" + last.name
    ensures DefinesIn(key, rest, ref, text) <==> DefinesIn(key, rest + [last], ref, text)
  {
    var entries := rest + [last];
    if i :| IsLastNamed(rest, i) && ref == key + "/" + rest[i].name && text == rest[i].rendered {
      assert IsLastNamed(entries, i) && entries[i] == rest[i];
    }
    if i :| IsLastNamed(entries, i) && ref == key + "/" + entries[i].name && text == entries[i].rendered {
      assert i < |rest| && entries[i] == rest[i];
      forall j | i < j < |rest| ensures rest[j].name != rest[i].name {
        assert entries[j] == rest[j];
      }
      assert IsLastNamed(rest, i);
    }
  }

  lemma {:induction false} NamedStarts(key: string, entries: seq<Entry>, ref: string)
    requires ref in Named(key, entries) && key != ""
    ensures ref != "" && ref[0] == key[0]
    decreases |entries|
  {
    if entries != [] && ref != key + "/" + entries[|entries| - 1].name {
      NamedStarts(key, entries[..|entries| - 1], ref);
    }
  }

  lemma NotInBoth(source: Source, ref: string)
    ensures !(ref in Named("schemas", source.schemas) && ref in Named("responses", source.responses))
  {
    hide Named;
    if ref in Named("schemas", source.schemas) {
      NamedStarts("schemas", source.schemas, ref);
      if ref in Named("responses", source.responses) {
        NamedStarts("responses", source.responses, ref);
        assert false;
      }
    }
  }

  /** The shared definitions are those of the source, under the section and the name. */
  lemma SharedIs(source: Source, ref: string, text: string)
    ensures (ref in Shared(source) && Shared(source)[ref] == text) <==> Defines(source, ref, text)
  {
    hide Named, DefinesIn;
    assert SCHEMAS == "schemas" && RESPONSES == "responses";
    NotInBoth(source, ref);
    NamedIs("schemas", source.schemas, ref, text);
    NamedIs("responses", source.responses, ref, text);
  }

  /** Entries at ascending places of the list: each one whose reference is kept, as often as the list has it. */
  ghost predicate IsSelection(kept: seq<Entry>, at: seq<nat>, entries: seq<Entry>, key: string, keep: set<string>) {
    && ArePlaces(kept, at, entries)
    && forall e :: multiset(kept)[e] == if RefOf(key, e) in keep then multiset(entries)[e] else 0
  }

  ghost predicate ArePlaces(kept: seq<Entry>, at: seq<nat>, entries: seq<Entry>) {
    && |at| == |kept|
    && (forall j :: 0 <= j < |at| ==> at[j] < |entries| && kept[j] == entries[at[j]])
    && forall j, k :: 0 <= j < k < |at| ==> at[j] < at[k]
  }

  lemma {:induction false} KeptPlaces(key: string, entries: seq<Entry>, keep: set<string>) returns (at: seq<nat>)
    ensures ArePlaces(Kept(key, entries, keep), at, entries)
    decreases |entries|
  {
    hide RefOf;
    if entries == [] {
      at := [];
    } else {
      var rest := KeptPlaces(key, entries[1..], keep);
      at := seq(|rest|, j requires 0 <= j < |rest| => rest[j] + 1);
      if RefOf(key, entries[0]) in keep {
        at := [0] + at;
      }
    }
  }

  lemma {:induction false} KeptCounts(key: string, entries: seq<Entry>, keep: set<string>, e: Entry)
    ensures multiset(Kept(key, entries, keep))[e] == if RefOf(key, e) in keep then multiset(entries)[e] else 0
    decreases |entries|
  {
    hide RefOf;
    if entries != [] {
      KeptCounts(key, entries[1..], keep, e);
      assert entries == [entries[0]] + entries[1..];
    }
  }

  /** A spec needs a component if every set does that holds the shared references of its own text and, with a component,
      the shared references of its definition. */
  ghost predicate IsWanted(source: Source, doc: string, ref: string) {
    forall s: set<string> ::
      (forall q :: Refers(StripRegions(doc), q) && q in Shared(source) ==> q in s)
      && (forall r, q :: r in s && r in Shared(source) && Refers(Shared(source)[r], q) && q in Shared(source) ==> q in s)
      ==> ref in s
  }

  /** The block renders the wanted entries of the section in source order, and nothing when there are none. */
  ghost predicate Carries(block: string, source: Source, doc: string, key: string, entries: seq<Entry>, render: Renderer) {
    exists kept: seq<Entry>, at: seq<nat>, wanted: set<string> ::
      && IsSelection(kept, at, entries, key, wanted)
      && (forall e :: e in entries ==> (RefOf(key, e) in wanted <==> IsWanted(source, doc, RefOf(key, e))))
      && block == if kept == [] then "" else render(kept)
  }

  lemma LeastIsWanted(source: Source, doc: string, ref: string)
    requires ref in Shared(source)
    ensures ref in Least(Shared(source), RefsIn(StripRegions(doc))) <==> IsWanted(source, doc, ref)
  {
    hide Shared, RefsIn, Refers, StripRegions;
    forall text, q ensures q in RefsIn(text) <==> Refers(text, q) {
      RefsInAreReferences(text, q);
    }
    var seeds := RefsIn(StripRegions(doc));
    forall s: set<string>
      ensures IsClosed(Shared(source), s) && HoldsSeeds(Shared(source), seeds, s) <==>
        (forall q :: Refers(StripRegions(doc), q) && q in Shared(source) ==> q in s)
        && forall r, q :: r in s && r in Shared(source) && Refers(Shared(source)[r], q) && q in Shared(source) ==> q in s
    {
    }
  }

  lemma BlockCarries(source: Source, doc: string, key: string, entries: seq<Entry>, render: Renderer)
    requires forall e :: e in entries ==> RefOf(key, e) in Shared(source)
    ensures var keep := Least(Shared(source), RefsIn(StripRegions(doc)));
      Carries(RenderMap(Kept(key, entries, keep), render), source, doc, key, entries, render)
  {
    hide Shared, RefsIn, RefOf, StripRegions, Least, Kept, ArePlaces, IsWanted;
    var keep := Least(Shared(source), RefsIn(StripRegions(doc)));
    var at := KeptPlaces(key, entries, keep);
    forall e
      ensures multiset(Kept(key, entries, keep))[e] == if RefOf(key, e) in keep then multiset(entries)[e] else 0
    {
      KeptCounts(key, entries, keep, e);
    }
    assert IsSelection(Kept(key, entries, keep), at, entries, key, keep);
    forall e | e in entries ensures RefOf(key, e) in keep <==> IsWanted(source, doc, RefOf(key, e)) {
      LeastIsWanted(source, doc, RefOf(key, e));
    }
  }

  lemma {:induction false} EntriesAreNamed(key: string, entries: seq<Entry>, e: Entry)
    requires e in entries
    ensures RefOf(key, e) in Named(key, entries)
    decreases |entries|
  {
    var rest, last := entries[..|entries| - 1], entries[|entries| - 1];
    assert entries == rest + [last];
    if e != last {
      EntriesAreNamed(key, rest, e);
    }
  }

  /** Each block carries the components of its section that the spec needs. */
  lemma BlocksCarry(source: Source, doc: string, render: Renderer)
    ensures Carries(BlocksFor(source, doc, render).schemas, source, doc, "schemas", source.schemas, render)
    ensures Carries(BlocksFor(source, doc, render).responses, source, doc, "responses", source.responses, render)
  {
    hide Carries, Named, RenderMap, Kept, Least, RefsIn, StripRegions;
    assert SCHEMAS == "schemas" && RESPONSES == "responses";
    forall e | e in source.schemas ensures RefOf("schemas", e) in Shared(source) {
      EntriesAreNamed(SCHEMAS, source.schemas, e);
    }
    forall e | e in source.responses ensures RefOf("responses", e) in Shared(source) {
      EntriesAreNamed(RESPONSES, source.responses, e);
    }
    BlockCarries(source, doc, "schemas", source.schemas, render);
    BlockCarries(source, doc, "responses", source.responses, render);
  }

  method ComputeBlocks(source: Source, doc: string, render: Renderer) returns (blocks: Blocks)
    ensures blocks == BlocksFor(source, doc, render)
    ensures Carries(blocks.schemas, source, doc, "schemas", source.schemas, render)
    ensures Carries(blocks.responses, source, doc, "responses", source.responses, render)
  {
    BlocksCarry(source, doc, render);
    var stripped := StripRegionsLoop(doc);
    var keep := Reachable(Shared(source), RefsIn(stripped));
    blocks := Blocks(
      RenderMap(Kept(SCHEMAS, source.schemas, keep), render),
      RenderMap(Kept(RESPONSES, source.responses, keep), render));
  }

  // ---- apply ----

  /** Both sections spliced in turn, on the lines of the spec. */
  function ApplyLines(lines: seq<string>, blocks: Blocks): Result<seq<string>, SpliceError> {
    match SpliceLines(lines, SCHEMAS, blocks.schemas)
    case Err(e) => Err(e)
    case Ok(mid) => SpliceLines(mid, RESPONSES, blocks.responses)
  }

  /** The updated content of the spec. */
  function Updated(doc: string, blocks: Blocks): Result<string, SpliceError> {
    match Splice(doc, SCHEMAS, blocks.schemas)
    case Err(e) => Err(e)
    case Ok(mid) => Splice(mid, RESPONSES, blocks.responses)
  }

  /** The spec file. A dry run reports a change and writes nothing. */
  class SpecFile {
    var content: string

    constructor (text: string)
      ensures content == text
    {
      content := text;
    }

    method Apply(blocks: Blocks, dryRun: bool) returns (changed: Result<bool, SpliceError>)
      modifies this
      ensures match Updated(old(content), blocks)
              case Err(e) => changed == Err(e) && content == old(content)
              case Ok(updated) => changed == Ok(updated != old(content)) && content == if dryRun then old(content) else updated
    {
      var mid := SpliceLoop(content, SCHEMAS, blocks.schemas);
      if mid.Err? {
        return Err(mid.error);
      }
      var updated := SpliceLoop(mid.value, RESPONSES, blocks.responses);
      if updated.Err? {
        return Err(updated.error);
      }
      if updated.value == content {
        return Ok(false);
      }
      if !dryRun {
        content := updated.value;
      }
      changed := Ok(true);
    }

    /** One generator run on the file: compute the blocks, then splice them. */
    method Generate(source: Source, render: Renderer, dryRun: bool) returns (changed: Result<bool, SpliceError>)
      modifies this
      ensures match Updated(old(content), BlocksFor(source, old(content), render))
              case Err(e) => changed == Err(e) && content == old(content)
              case Ok(updated) => changed == Ok(updated != old(content)) && content == if dryRun then old(content) else updated
    {
      var blocks := ComputeBlocks(source, content, render);
      changed := Apply(blocks, dryRun);
    }
  }

  // ---- generate, then check ----

  /** The rendered blocks hold no line that reads as a sentinel. */
  predicate NoSentinelLines(blocks: Blocks) {
    && NeverCloses(blocks.schemas) && NeverCloses(blocks.responses)
    && NeverBegins(blocks.schemas, SCHEMAS) && NeverBegins(blocks.schemas, RESPONSES)
    && NeverBegins(blocks.responses, SCHEMAS)
  }

  /** The responses region is still open where the schemas region begins. */
  predicate IsNested(lines: seq<string>) {
    var r, s := FindBegin(lines, RESPONSES), FindBegin(lines, SCHEMAS);
    r < s && s < |lines| && FindEnd(lines, r + 1) > s
  }

  lemma KeysDiffer(line: string)
    ensures !(IsBegin(line, SCHEMAS) && IsBegin(line, RESPONSES))
  {
    assert BeginMark(SCHEMAS)[25] == 's';
    assert BeginMark(RESPONSES)[25] == 'r';
  }

  lemma SpliceIsLines(lines: seq<string>, key: string, block: string)
    requires |lines| > 0 && AreLines(lines) && SpliceLines(lines, key, block).Ok?
    ensures AreLines(SpliceLines(lines, key, block).value) && |SpliceLines(lines, key, block).value| > 0
  {
    hide FindBegin, FindEnd, IsBegin, IsEnd, IsLine;
    var s := FindBegin(lines, key);
    BlockIsLines(block, IndentOf(lines[s]));
  }

  lemma BlockIsLines(block: string, indent: string)
    requires forall k :: 0 <= k < |indent| ==> indent[k] == ' '
    ensures AreLines(BlockLines(block, indent))
  {
    var body := BlockLines(block, indent);
    forall k | 0 <= k < |body| ensures IsLine(body[k]) {
      assert IsLine(Lines.Split(TrimNewlines(block))[k]);
    }
  }

  /** Working on the text is working on its lines. */
  lemma UpdatedByLines(doc: string, blocks: Blocks)
    ensures match ApplyLines(Lines.Split(doc), blocks)
            case Err(e) => Updated(doc, blocks) == Err(e)
            case Ok(lines) => Updated(doc, blocks) == Ok(Join(lines)) && Lines.Split(Join(lines)) == lines
  {
    hide SpliceLines, AreLines, Lines.Split, Join;
    var lines := Lines.Split(doc);
    var mid := SpliceLines(lines, SCHEMAS, blocks.schemas);
    if mid.Ok? {
      SpliceIsLines(lines, SCHEMAS, blocks.schemas);
      SplitOfJoin(mid.value);
      if SpliceLines(mid.value, RESPONSES, blocks.responses).Ok? {
        SpliceIsLines(mid.value, RESPONSES, blocks.responses);
        SplitOfJoin(SpliceLines(mid.value, RESPONSES, blocks.responses).value);
      }
    }
  }

  /** Applying the sections leaves everything outside the regions alone. */
  lemma ApplyKeepsStripped(doc: string, blocks: Blocks)
    requires NeverCloses(blocks.schemas) && NeverCloses(blocks.responses)
    requires Updated(doc, blocks).Ok?
    ensures StripRegions(Updated(doc, blocks).value) == StripRegions(doc)
  {
    hide SpliceLines, AreLines, Lines.Split, Join, Strip, NeverCloses;
    var lines := Lines.Split(doc);
    UpdatedByLines(doc, blocks);
    SpliceKeepsStripped(lines, SCHEMAS, blocks.schemas);
    SpliceKeepsStripped(SpliceLines(lines, SCHEMAS, blocks.schemas).value, RESPONSES, blocks.responses);
  }

  /** So the blocks computed from the output are the blocks that made it. */
  lemma BlocksAreStable(source: Source, doc: string, render: Renderer)
    requires var blocks := BlocksFor(source, doc, render);
      NeverCloses(blocks.schemas) && NeverCloses(blocks.responses) && Updated(doc, blocks).Ok?
    ensures BlocksFor(source, Updated(doc, BlocksFor(source, doc, render)).value, render) == BlocksFor(source, doc, render)
  {
    hide Updated, NeverCloses, StripRegions, Least, Kept, RenderMap;
    ApplyKeepsStripped(doc, BlocksFor(source, doc, render));
  }

  predicate BeginsOnce(lines: seq<string>) {
    forall k :: FindBegin(lines, SCHEMAS) < k < |lines| ==> !IsBegin(lines[k], SCHEMAS)
  }

  /** The first splice moves no line up to its own sentinel, so it decides nothing about nesting. */
  lemma FirstSpliceKeepsNesting(lines: seq<string>, block: string)
    requires NeverBegins(block, SCHEMAS) && SpliceLines(lines, SCHEMAS, block).Ok?
    ensures var mid := SpliceLines(lines, SCHEMAS, block).value;
      (IsNested(mid) <==> IsNested(lines)) && (BeginsOnce(lines) ==> BeginsOnce(mid))
  {
    hide IsBegin, IsEnd, BlockLines, NeverBegins, FindBegin, FindEnd;
    var s := FindBegin(lines, SCHEMAS);
    var e := FindEnd(lines, s + 1);
    FindsFirstBegin(lines, SCHEMAS);
    var mid := SpliceLines(lines, SCHEMAS, block).value;
    assert mid[..s + 1] == lines[..s + 1];
    assert forall k :: 0 <= k <= s ==> mid[k] == mid[..s + 1][k] == lines[k];
    FindBeginIs(mid, SCHEMAS, s);
    SameOpening(lines, mid, s);
    SameOpening(mid, lines, s);
    var body := BlockLines(block, IndentOf(lines[s]));
    BlockHasNoBegin(block, IndentOf(lines[s]), SCHEMAS);
    if BeginsOnce(lines) {
      forall k | s < k < |mid| ensures !IsBegin(mid[k], SCHEMAS) {
        if k <= s + |body| {
          assert mid[k] == body[k - s - 1];
        } else {
          assert mid[k] == lines[e + (k - s - 1 - |body|)];
        }
      }
    }
  }

  lemma SameOpening(a: seq<string>, b: seq<string>, s: nat)
    requires s < |a| && s < |b| && forall k :: 0 <= k <= s ==> a[k] == b[k]
    requires FindBegin(a, SCHEMAS) == s && FindBegin(b, SCHEMAS) == s
    ensures IsNested(a) ==> IsNested(b)
  {
    hide IsBegin, IsEnd, FindBegin, FindEnd;
    if IsNested(a) {
      var r := FindBegin(a, RESPONSES);
      FindsFirstBegin(a, RESPONSES);
      FindsFirstEnd(a, r + 1);
      FindsFirstEnd(b, r + 1);
      FindBeginIs(b, RESPONSES, r);
    }
  }

  /** When the responses region comes later, the schemas region is not touched. */
  lemma SpliceAfter(mid: seq<string>, blocks: Blocks)
    requires NoSentinelLines(blocks) && Holds(mid, SCHEMAS, blocks.schemas)
    requires SpliceLines(mid, RESPONSES, blocks.responses).Ok?
    requires FindBegin(mid, RESPONSES) > FindBegin(mid, SCHEMAS)
    ensures Holds(SpliceLines(mid, RESPONSES, blocks.responses).value, SCHEMAS, blocks.schemas)
  {
    hide IsBegin, IsEnd, OpensRegion, BlockLines, NeverBegins, NeverCloses, FindBegin, FindEnd, IndentOf, Holds;
    var r := FindBegin(mid, RESPONSES);
    var front, rest := mid[..r + 1], mid[r + 1..];
    assert mid == front + rest;
    BlockHoldsNoResponses(mid, blocks);
    RegionInPrefix(mid, SCHEMAS, r + 1);
    HoldsInFront(front, rest, SCHEMAS, blocks.schemas);
    var out := SpliceLines(mid, RESPONSES, blocks.responses).value;
    var back := BlockLines(blocks.responses, IndentOf(mid[r])) + mid[FindEnd(mid, r + 1)..];
    assert out == front + back;
    HoldsInFront(front, back, SCHEMAS, blocks.schemas);
  }

  lemma BlockHoldsNoResponses(mid: seq<string>, blocks: Blocks)
    requires NoSentinelLines(blocks) && Holds(mid, SCHEMAS, blocks.schemas)
    requires FindBegin(mid, SCHEMAS) < FindBegin(mid, RESPONSES) < |mid|
    ensures FindEnd(mid, FindBegin(mid, SCHEMAS) + 1) < FindBegin(mid, RESPONSES)
  {
    hide IsBegin, IsEnd, OpensRegion, BlockLines, NeverBegins, NeverCloses, FindBegin, FindEnd, IndentOf;
    var s := FindBegin(mid, SCHEMAS);
    var e := FindEnd(mid, s + 1);
    BlockHasNoBegin(blocks.schemas, IndentOf(mid[s]), RESPONSES);
    forall k | s < k < e ensures !IsBegin(mid[k], RESPONSES) {
      assert mid[k] == mid[s + 1..e][k - s - 1];
    }
    BeginIsNoEnd(mid, RESPONSES);
    assert IsEnd(mid[e]) by { FindsFirstEnd(mid, s + 1); }
  }

  lemma BeginIsNoEnd(lines: seq<string>, key: string)
    requires FindBegin(lines, key) < |lines|
    ensures IsBegin(lines[FindBegin(lines, key)], key) && !IsEnd(lines[FindBegin(lines, key)])
  {
    hide IsBegin, IsEnd, OpensRegion, FindBegin;
    FindsFirstBegin(lines, key);
    BeginOpens(lines[FindBegin(lines, key)], key);
  }

  /** When the responses region closes earlier, the schemas region only moves. */
  lemma SpliceBefore(mid: seq<string>, blocks: Blocks)
    requires NoSentinelLines(blocks) && Holds(mid, SCHEMAS, blocks.schemas)
    requires SpliceLines(mid, RESPONSES, blocks.responses).Ok?
    requires FindBegin(mid, RESPONSES) < FindBegin(mid, SCHEMAS)
    requires FindEnd(mid, FindBegin(mid, RESPONSES) + 1) < FindBegin(mid, SCHEMAS)
    ensures Holds(SpliceLines(mid, RESPONSES, blocks.responses).value, SCHEMAS, blocks.schemas)
  {
    hide Holds, SpliceLines, FindBegin, FindEnd, NoSentinelLines;
    var front := SplicedFront(mid, blocks);
    var f := FindEnd(mid, FindBegin(mid, RESPONSES) + 1);
    assert mid == mid[..f] + mid[f..];
    FindBeginOfConcat(mid[..f], mid[f..], SCHEMAS);
    HoldsBehind(mid[..f], mid[f..], SCHEMAS, blocks.schemas);
    HoldsBehind(front, mid[f..], SCHEMAS, blocks.schemas);
  }

  /** When the responses begin first, their splice keeps everything from their end mark on, and no schemas sentinel
      stands in front of that. */
  lemma SplicedFront(mid: seq<string>, blocks: Blocks) returns (front: seq<string>)
    requires NoSentinelLines(blocks) && SpliceLines(mid, RESPONSES, blocks.responses).Ok?
    requires FindBegin(mid, RESPONSES) < FindBegin(mid, SCHEMAS)
    ensures var f := FindEnd(mid, FindBegin(mid, RESPONSES) + 1);
      && f < |mid| && SpliceLines(mid, RESPONSES, blocks.responses) == Ok(front + mid[f..])
      && FindBegin(front, SCHEMAS) == |front| > FindBegin(mid, RESPONSES)
      && front[..FindBegin(mid, RESPONSES) + 1] == mid[..FindBegin(mid, RESPONSES) + 1]
  {
    hide IsBegin, IsEnd, OpensRegion, BlockLines, NeverBegins, NeverCloses, FindBegin, FindEnd, IndentOf;
    var r := FindBegin(mid, RESPONSES);
    var body := BlockLines(blocks.responses, IndentOf(mid[r]));
    front := mid[..r + 1] + body;
    BlockHasNoBegin(blocks.responses, IndentOf(mid[r]), SCHEMAS);
    NoBegin(body, SCHEMAS);
    assert mid == mid[..r + 1] + mid[r + 1..];
    FindBeginOfConcat(mid[..r + 1], mid[r + 1..], SCHEMAS);
    FindBeginOfConcat(mid[..r + 1], body, SCHEMAS);
  }

  /** A nested responses region swallows the only schemas sentinel. */
  lemma NestedSpliceSwallows(mid: seq<string>, blocks: Blocks)
    requires NoSentinelLines(blocks) && IsNested(mid) && BeginsOnce(mid)
    requires SpliceLines(mid, RESPONSES, blocks.responses).Ok?
    ensures ApplyLines(SpliceLines(mid, RESPONSES, blocks.responses).value, blocks) == Err(NoSentinel)
  {
    hide IsBegin, IsEnd, BlockLines, NeverBegins, NeverCloses, FindBegin, FindEnd, IndentOf;
    var r := FindBegin(mid, RESPONSES);
    var f := FindEnd(mid, r + 1);
    FindsFirstBegin(mid, SCHEMAS);
    var body := BlockLines(blocks.responses, IndentOf(mid[r]));
    var out := SpliceLines(mid, RESPONSES, blocks.responses).value;
    BlockHasNoBegin(blocks.responses, IndentOf(mid[r]), SCHEMAS);
    forall k | 0 <= k < |out| ensures !IsBegin(out[k], SCHEMAS) {
      if k <= r {
        assert out[k] == mid[k];
      } else if k <= r + |body| {
        assert out[k] == body[k - r - 1];
      } else {
        assert out[k] == mid[f + (k - r - 1 - |body|)];
      }
    }
    NoBegin(out, SCHEMAS);
  }

  /** The lines from the end mark of the schemas region on. */
  function AfterSchemas(lines: seq<string>): seq<string> {
    var s := FindBegin(lines, SCHEMAS);
    if s == |lines| then [] else lines[FindEnd(lines, s + 1)..]
  }

  /** The second run changes nothing: the regions are disjoint, or a later schemas region holds the block already. */
  predicate Settles(lines: seq<string>, blocks: Blocks) {
    !IsNested(lines) || Holds(AfterSchemas(lines), SCHEMAS, blocks.schemas)
  }

  lemma SecondApply(lines: seq<string>, blocks: Blocks)
    requires NoSentinelLines(blocks) && ApplyLines(lines, blocks).Ok?
    ensures var out := ApplyLines(lines, blocks).value;
      && (ApplyLines(out, blocks) == Ok(out) <==> Settles(lines, blocks))
      && (IsNested(lines) ==>
           match SpliceLines(AfterSchemas(lines), SCHEMAS, blocks.schemas)
           case Err(e) => ApplyLines(out, blocks) == Err(e)
           case Ok(_) => ApplyLines(out, blocks).Ok?)
      && (IsNested(lines) && BeginsOnce(lines) ==> ApplyLines(out, blocks) == Err(NoSentinel))
  {
    hide NoSentinelLines, IsNested, FindBegin, FindEnd, SpliceLines, Holds, BeginsOnce, AfterSchemas;
    var mid := SpliceLines(lines, SCHEMAS, blocks.schemas).value;
    assert NeverBegins(blocks.schemas, SCHEMAS) && NeverCloses(blocks.schemas) by { BlocksNeverMark(blocks); }
    FirstSpliceKeepsNesting(lines, blocks.schemas);
    SpliceHolds(lines, SCHEMAS, blocks.schemas);
    if IsNested(lines) {
      SecondApplyNested(mid, blocks);
      FirstSpliceKeepsAfter(lines, blocks.schemas);
      if BeginsOnce(lines) {
        NestedSpliceSwallows(mid, blocks);
      }
    } else {
      SecondApplyDisjoint(mid, blocks);
    }
  }

  lemma BlocksNeverMark(blocks: Blocks)
    requires NoSentinelLines(blocks)
    ensures NeverBegins(blocks.schemas, SCHEMAS) && NeverCloses(blocks.schemas) && NeverCloses(blocks.responses)
  {
  }

  lemma SecondApplyDisjoint(mid: seq<string>, blocks: Blocks)
    requires NoSentinelLines(blocks) && SpliceLines(mid, RESPONSES, blocks.responses).Ok?
    requires Holds(mid, SCHEMAS, blocks.schemas) && !IsNested(mid)
    ensures var out := SpliceLines(mid, RESPONSES, blocks.responses).value;
      ApplyLines(out, blocks) == Ok(out)
  {
    hide NoSentinelLines, IsNested, FindBegin, FindEnd, SpliceLines, Holds;
    var out := SpliceLines(mid, RESPONSES, blocks.responses).value;
    BlocksNeverMark(blocks);
    HoldsHasBegin(mid, blocks.schemas);
    SplicedHasBegin(mid, RESPONSES, blocks.responses);
    SentinelPositions(mid, FindBegin(mid, SCHEMAS), FindBegin(mid, RESPONSES));
    if FindBegin(mid, RESPONSES) > FindBegin(mid, SCHEMAS) {
      SpliceAfter(mid, blocks);
    } else {
      SpliceBefore(mid, blocks);
    }
    UnchangedIffHolds(out, SCHEMAS, blocks.schemas);
    SpliceHolds(mid, RESPONSES, blocks.responses);
    UnchangedIffHolds(out, RESPONSES, blocks.responses);
  }

  /** On nested regions a second run works on the first schemas region after them. */
  lemma SecondApplyNested(mid: seq<string>, blocks: Blocks)
    requires NoSentinelLines(blocks) && SpliceLines(mid, RESPONSES, blocks.responses).Ok?
    requires IsNested(mid)
    ensures var out := SpliceLines(mid, RESPONSES, blocks.responses).value;
      && (ApplyLines(out, blocks) == Ok(out) <==> Holds(AfterSchemas(mid), SCHEMAS, blocks.schemas))
      && match SpliceLines(AfterSchemas(mid), SCHEMAS, blocks.schemas)
         case Err(e) => ApplyLines(out, blocks) == Err(e)
         case Ok(_) => ApplyLines(out, blocks).Ok?
  {
    hide NoSentinelLines, FindBegin, FindEnd, SpliceLines, Holds;
    var out := SpliceLines(mid, RESPONSES, blocks.responses).value;
    var front := SplicedFront(mid, blocks);
    NestedEndsTogether(mid);
    BlocksNeverMark(blocks);
    HoldsBehind(front, AfterSchemas(mid), SCHEMAS, blocks.schemas);
    SpliceBehind(front, AfterSchemas(mid), SCHEMAS, blocks.schemas);
    SpliceHolds(mid, RESPONSES, blocks.responses);
    UnchangedIffHolds(out, SCHEMAS, blocks.schemas);
    UnchangedIffHolds(out, RESPONSES, blocks.responses);
    if SpliceLines(out, SCHEMAS, blocks.schemas).Ok? {
      ResponsesStay(mid, out, blocks);
      UnchangedIffHolds(SpliceLines(out, SCHEMAS, blocks.schemas).value, RESPONSES, blocks.responses);
    }
  }

  /** The end mark that closes the schemas region closes the responses region around it too. */
  lemma NestedEndsTogether(mid: seq<string>)
    requires IsNested(mid)
    ensures FindEnd(mid, FindBegin(mid, RESPONSES) + 1) == FindEnd(mid, FindBegin(mid, SCHEMAS) + 1)
    ensures AfterSchemas(mid) == mid[FindEnd(mid, FindBegin(mid, RESPONSES) + 1)..]
  {
    hide FindBegin, FindEnd;
    FindEndFrom(mid, FindBegin(mid, RESPONSES) + 1, FindBegin(mid, SCHEMAS) + 1);
  }

  /** A schemas region after the responses region can be spliced without touching the responses. */
  lemma ResponsesStay(mid: seq<string>, out: seq<string>, blocks: Blocks)
    requires NoSentinelLines(blocks) && IsNested(mid) && SpliceLines(mid, RESPONSES, blocks.responses) == Ok(out)
    requires Holds(out, RESPONSES, blocks.responses) && SpliceLines(out, SCHEMAS, blocks.schemas).Ok?
    ensures Holds(SpliceLines(out, SCHEMAS, blocks.schemas).value, RESPONSES, blocks.responses)
  {
    hide IsBegin, IsEnd, OpensRegion, BlockLines, NeverBegins, NeverCloses, FindBegin, FindEnd, IndentOf, Holds;
    var s := FindBegin(out, SCHEMAS);
    var kept, rest := out[..s + 1], out[s + 1..];
    assert out == kept + rest;
    ResponsesCloseFirst(mid, out, blocks);
    RegionInPrefix(out, RESPONSES, s + 1);
    HoldsInFront(kept, rest, RESPONSES, blocks.responses);
    var back := BlockLines(blocks.schemas, IndentOf(out[s])) + out[FindEnd(out, s + 1)..];
    assert SpliceLines(out, SCHEMAS, blocks.schemas).value == kept + back;
    HoldsInFront(kept, back, RESPONSES, blocks.responses);
  }

  lemma ResponsesCloseFirst(mid: seq<string>, out: seq<string>, blocks: Blocks)
    requires NoSentinelLines(blocks) && IsNested(mid) && SpliceLines(mid, RESPONSES, blocks.responses) == Ok(out)
    ensures FindBegin(out, RESPONSES) < |out| && FindEnd(out, FindBegin(out, RESPONSES) + 1) <= FindBegin(out, SCHEMAS)
  {
    hide NoSentinelLines, SpliceLines, FindBegin, FindEnd, IsEnd;
    var r := FindBegin(mid, RESPONSES);
    var f := FindEnd(mid, r + 1);
    var front := SplicedFront(mid, blocks);
    FindBeginOfConcat(front, mid[f..], SCHEMAS);
    PrefixOfConcat(front, mid[f..], mid, r + 1);
    SameFirstBegin(mid, out, RESPONSES, r);
    assert IsEnd(out[|front|]) by {
      FindsFirstEnd(mid, r + 1);
      assert out[|front|] == mid[f..][0];
    }
    EndAtMost(out, r + 1, |front|);
  }

  lemma PrefixOfConcat<T>(a: seq<T>, b: seq<T>, c: seq<T>, n: nat)
    requires n <= |a| && n <= |c| && a[..n] == c[..n]
    ensures (a + b)[..n] == c[..n]
  {
  }

  lemma SameFirstBegin(a: seq<string>, b: seq<string>, key: string, i: nat)
    requires i < |a| && i < |b| && a[..i + 1] == b[..i + 1] && FindBegin(a, key) == i
    ensures FindBegin(b, key) == i
  {
    hide IsBegin, FindBegin;
    FindsFirstBegin(a, key);
    forall k | 0 <= k <= i ensures b[k] == a[k] {
      assert b[k] == b[..i + 1][k] == a[..i + 1][k];
    }
    FindBeginIs(b, key, i);
  }

  lemma EndAtMost(lines: seq<string>, start: nat, i: nat)
    requires start <= i < |lines| && IsEnd(lines[i])
    ensures FindEnd(lines, start) <= i
  {
    hide IsEnd, FindEnd;
    FindsFirstEnd(lines, start);
  }

  /** The first splice keeps every line from the end mark of its region on. */
  lemma FirstSpliceKeepsAfter(lines: seq<string>, block: string)
    requires NeverBegins(block, SCHEMAS) && NeverCloses(block) && SpliceLines(lines, SCHEMAS, block).Ok?
    ensures AfterSchemas(SpliceLines(lines, SCHEMAS, block).value) == AfterSchemas(lines)
  {
    hide IsBegin, IsEnd, BlockLines, NeverBegins, NeverCloses, FindBegin, FindEnd, IndentOf;
    var s := FindBegin(lines, SCHEMAS);
    var e := FindEnd(lines, s + 1);
    FindsFirstEnd(lines, s + 1);
    var body := BlockLines(block, IndentOf(lines[s]));
    var front := lines[..s + 1] + body;
    var mid := SpliceLines(lines, SCHEMAS, block).value;
    assert mid == front + lines[e..];
    assert mid[..s + 1] == lines[..s + 1];
    SameFirstBegin(lines, mid, SCHEMAS, s);
    BlockHasNoEnd(block, IndentOf(lines[s]));
    forall k | s + 1 <= k < |front| ensures !IsEnd(mid[k]) {
      assert mid[k] == body[k - s - 1];
    }
    assert mid[|front|] == lines[e];
    FindEndIs(mid, s + 1, |front|);
    assert mid[|front|..] == lines[e..];
  }

  lemma SentinelPositions(mid: seq<string>, s: nat, r: nat)
    requires s == FindBegin(mid, SCHEMAS) < |mid| && r == FindBegin(mid, RESPONSES) < |mid| && !IsNested(mid)
    ensures s < r || FindEnd(mid, r + 1) < s
  {
    hide IsBegin, IsEnd, OpensRegion, FindBegin, FindEnd;
    FindsFirstBegin(mid, SCHEMAS);
    FindsFirstBegin(mid, RESPONSES);
    FindsFirstEnd(mid, r + 1);
    KeysDiffer(mid[s]);
    BeginOpens(mid[s], SCHEMAS);
  }

  lemma SplicedHasBegin(lines: seq<string>, key: string, block: string)
    requires SpliceLines(lines, key, block).Ok?
    ensures FindBegin(lines, key) < |lines|
  {
    hide FindBegin, FindEnd, BlockLines;
  }

  lemma HoldsHasBegin(mid: seq<string>, block: string)
    requires Holds(mid, SCHEMAS, block)
    ensures FindBegin(mid, SCHEMAS) < |mid| && FindEnd(mid, FindBegin(mid, SCHEMAS) + 1) < |mid|
  {
    hide FindBegin, FindEnd, BlockLines;
  }

  /** Generate, then check: a second run on the output changes nothing, unless the responses region
      is still open where the schemas region begins. */
  lemma SecondRunIsNoOp(source: Source, doc: string, render: Renderer)
    requires NoSentinelLines(BlocksFor(source, doc, render)) && !IsNested(Lines.Split(doc))
    requires Updated(doc, BlocksFor(source, doc, render)).Ok?
    ensures var out := Updated(doc, BlocksFor(source, doc, render)).value;
      Updated(out, BlocksFor(source, out, render)) == Ok(out)
  {
    hide ApplyLines, Updated, NeverBegins, NeverCloses, BlocksFor, Lines.Split, Join;
    var blocks := BlocksFor(source, doc, render);
    BlocksAreStable(source, doc, render);
    UpdatedByLines(doc, blocks);
    UpdatedByLines(Updated(doc, blocks).value, blocks);
    SecondApply(Lines.Split(doc), blocks);
  }

  /** The exact condition: the regions are disjoint, or the text after the first schemas region has another one that
      holds the block already. */
  lemma SecondRunIffSettled(source: Source, doc: string, render: Renderer)
    requires NoSentinelLines(BlocksFor(source, doc, render)) && Updated(doc, BlocksFor(source, doc, render)).Ok?
    ensures var out := Updated(doc, BlocksFor(source, doc, render)).value;
      Updated(out, BlocksFor(source, out, render)) == Ok(out)
      <==> Settles(Lines.Split(doc), BlocksFor(source, doc, render))
  {
    hide ApplyLines, Updated, NeverBegins, NeverCloses, BlocksFor, Lines.Split, Join, Settles, BeginsOnce, IsNested;
    var blocks := BlocksFor(source, doc, render);
    BlocksAreStable(source, doc, render);
    UpdatedByLines(doc, blocks);
    UpdatedByLines(Updated(doc, blocks).value, blocks);
    SecondApply(Lines.Split(doc), blocks);
    JoinOfSplit(Updated(doc, blocks).value);
  }

  /** On nested regions the second run works on the text after the first schemas region: it fails as a splice of that
      text fails, and otherwise moves the block there. */
  lemma SecondRunOnNested(source: Source, doc: string, render: Renderer)
    requires NoSentinelLines(BlocksFor(source, doc, render)) && Updated(doc, BlocksFor(source, doc, render)).Ok?
    requires IsNested(Lines.Split(doc))
    ensures var out := Updated(doc, BlocksFor(source, doc, render)).value;
      match SpliceLines(AfterSchemas(Lines.Split(doc)), SCHEMAS, BlocksFor(source, doc, render).schemas)
      case Err(e) => Updated(out, BlocksFor(source, out, render)) == Err(e)
      case Ok(_) => Updated(out, BlocksFor(source, out, render)).Ok?
  {
    hide ApplyLines, Updated, NeverBegins, NeverCloses, BlocksFor, Lines.Split, Join, BeginsOnce, IsNested, SpliceLines;
    var blocks := BlocksFor(source, doc, render);
    BlocksAreStable(source, doc, render);
    UpdatedByLines(doc, blocks);
    UpdatedByLines(Updated(doc, blocks).value, blocks);
    SecondApply(Lines.Split(doc), blocks);
  }

  /** For a spec with one schemas sentinel that is: the regions are not nested. In the nested layout the first run
      deletes the sentinel, and the second run fails for want of it. */
  lemma SecondRunIffNotNested(source: Source, doc: string, render: Renderer)
    requires NoSentinelLines(BlocksFor(source, doc, render)) && BeginsOnce(Lines.Split(doc))
    requires Updated(doc, BlocksFor(source, doc, render)).Ok?
    ensures var out := Updated(doc, BlocksFor(source, doc, render)).value;
      Updated(out, BlocksFor(source, out, render)) == if IsNested(Lines.Split(doc)) then Err(NoSentinel) else Ok(out)
  {
    hide ApplyLines, Updated, NeverBegins, NeverCloses, BlocksFor, Lines.Split, Join, BeginsOnce;
    var blocks := BlocksFor(source, doc, render);
    BlocksAreStable(source, doc, render);
    UpdatedByLines(doc, blocks);
    UpdatedByLines(Updated(doc, blocks).value, blocks);
    SecondApply(Lines.Split(doc), blocks);
  }

  /** The smallest nested spec: the first run succeeds and deletes the schemas sentinel. */
  lemma NestedExample()
    ensures var lines := [BeginMark(RESPONSES), BeginMark(SCHEMAS), END_MARK];
      var blocks := Blocks("", "");
      && NoSentinelLines(blocks) && IsNested(lines) && BeginsOnce(lines)
      && ApplyLines(lines, blocks) == Ok([BeginMark(RESPONSES), "", END_MARK])
      && ApplyLines([BeginMark(RESPONSES), "", END_MARK], blocks) == Err(NoSentinel)
  {
    var lines := [BeginMark(RESPONSES), BeginMark(SCHEMAS), END_MARK];
    var blocks := Blocks("", "");
    MarksAreTrimmed();
    EmptyBlock();
    hide BlockLines, IndentOf, TrimSpace, FindBegin, FindEnd, BeginMark, NeverBegins, NeverCloses;
    FindBeginIs(lines, RESPONSES, 0);
    FindBeginIs(lines, SCHEMAS, 1);
    FindEndIs(lines, 1, 2);
    FindEndIs(lines, 2, 2);
    var mid := SpliceLines(lines, SCHEMAS, "").value;
    assert mid == [lines[0], lines[1], "", lines[2]];
    FindBeginIs(mid, RESPONSES, 0);
    FindEndIs(mid, 1, 3);
    assert SpliceLines(mid, RESPONSES, "").value == [lines[0], "", lines[2]];
    FirstSpliceKeepsNesting(lines, "");
    NestedSpliceSwallows(mid, blocks);
  }

  lemma MarksAreTrimmed()
    ensures IsBegin(BeginMark(SCHEMAS), SCHEMAS) && !IsBegin(BeginMark(SCHEMAS), RESPONSES) && !IsEnd(BeginMark(SCHEMAS))
    ensures IsBegin(BeginMark(RESPONSES), RESPONSES) && !IsBegin(BeginMark(RESPONSES), SCHEMAS) && !IsEnd(BeginMark(RESPONSES))
    ensures IsEnd(END_MARK) && !IsBegin(END_MARK, SCHEMAS) && !IsBegin(END_MARK, RESPONSES)
  {
    TrimOfTrimmed(BeginMark(SCHEMAS));
    TrimOfTrimmed(BeginMark(RESPONSES));
    TrimOfTrimmed(END_MARK);
    KeysDiffer(BeginMark(SCHEMAS));
    KeysDiffer(BeginMark(RESPONSES));
    BeginOpens(BeginMark(SCHEMAS), SCHEMAS);
    BeginOpens(BeginMark(RESPONSES), RESPONSES);
    assert BeginMark(SCHEMAS)[2] == '>' && BeginMark(RESPONSES)[2] == '>' && END_MARK[2] == '<';
  }

  lemma EmptyBlock()
    ensures forall indent :: BlockLines("", indent) == [""]
    ensures NeverCloses("") && NeverBegins("", SCHEMAS) && NeverBegins("", RESPONSES)
    ensures !IsEnd("") && !IsBegin("", SCHEMAS)
  {
    assert TrimSpace("") == "";
    assert END_MARK[0] == '#' && BeginMark(SCHEMAS)[0] == '#' && BeginMark(RESPONSES)[0] == '#';
  }

  /** The two commands of the tool, run in turn on one file: generate, then check. */
  method GenerateThenCheck(file: SpecFile, source: Source, render: Renderer) returns (clean: bool)
    requires NoSentinelLines(BlocksFor(source, file.content, render)) && !IsNested(Lines.Split(file.content))
    requires Updated(file.content, BlocksFor(source, file.content, render)).Ok?
    modifies file
    ensures clean
    ensures StripRegions(file.content) == StripRegions(old(file.content))
  {
    hide Updated, NeverBegins, NeverCloses, BlocksFor, Lines.Split, Join, StripRegions, IsNested;
    SecondRunIsNoOp(source, file.content, render);
    ApplyKeepsStripped(file.content, BlocksFor(source, file.content, render));
    var _ := file.Generate(source, render, false);
    var drift := file.Generate(source, render, true);
    clean := drift == Ok(false);
  }
}
