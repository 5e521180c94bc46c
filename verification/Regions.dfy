/** The sentinel regions of a service spec: how they are stripped and how they are replaced. */
module Regions {
  import opened Wrappers
  import opened Lines

  const BEGIN_PREFIX := "# >>> shared-components:"
  const END_MARK := "# <<< shared-components"

  datatype SpliceError = NoSentinel | NotClosed

  function BeginMark(key: string): string {
    BEGIN_PREFIX + " " + key + ". Generated from tools/codegen/shared-components.yaml. Do not edit"
  }

  predicate OpensRegion(line: string) {
    BEGIN_PREFIX <= TrimSpace(line)
  }

  predicate IsBegin(line: string, key: string) {
    TrimSpace(line) == BeginMark(key)
  }

  predicate IsEnd(line: string) {
    TrimSpace(line) == END_MARK
  }

  // ---- stripping ----

  function RegionAfter(line: string, inRegion: bool): bool {
    if OpensRegion(line) then true
    else if inRegion && IsEnd(line) then false
    else inRegion
  }

  function KeptOf(line: string, inRegion: bool): seq<string> {
    if OpensRegion(line) || inRegion then [] else [line]
  }

  /** The lines outside every region. */
  function Strip(lines: seq<string>, inRegion: bool): seq<string> {
    if lines == [] then []
    else KeptOf(lines[0], inRegion) + Strip(lines[1..], RegionAfter(lines[0], inRegion))
  }

  function StateAfter(lines: seq<string>, inRegion: bool): bool {
    if lines == [] then inRegion else StateAfter(lines[1..], RegionAfter(lines[0], inRegion))
  }

  function StripRegions(doc: string): string {
    Join(Strip(Lines.Split(doc), false))
  }

  method StripRegionsLoop(doc: string) returns (r: string)
    ensures r == StripRegions(doc)
  {
    hide OpensRegion, IsEnd, Strip;
    var lines := Lines.Split(doc);
    var out: seq<string> := [];
    var inRegion := false;
    assert lines[0..] == lines;
    for i := 0 to |lines|
      invariant out + Strip(lines[i..], inRegion) == Strip(lines, false)
    {
      StripStep(lines, i, inRegion, out);
      if OpensRegion(lines[i]) {
        inRegion := true;
      } else if inRegion && IsEnd(lines[i]) {
        inRegion := false;
      } else if !inRegion {
        out := out + [lines[i]];
      }
    }
    StripOfNothing(inRegion);
    assert lines[|lines|..] == [] && out + [] == out;
    r := Join(out);
  }

  lemma StripOfNothing(inRegion: bool)
    ensures Strip([], inRegion) == []
  {
  }

  lemma StripStep(lines: seq<string>, i: nat, inRegion: bool, out: seq<string>)
    requires i < |lines|
    ensures out + Strip(lines[i..], inRegion)
         == (out + KeptOf(lines[i], inRegion)) + Strip(lines[i + 1..], RegionAfter(lines[i], inRegion))
  {
    hide OpensRegion, IsEnd;
    assert lines[i..][1..] == lines[i + 1..];
  }

  lemma {:induction false} StripConcat(a: seq<string>, b: seq<string>, inRegion: bool)
    ensures Strip(a + b, inRegion) == Strip(a, inRegion) + Strip(b, StateAfter(a, inRegion))
  {
    hide OpensRegion, IsEnd;
    if a == [] {
      assert a + b == b;
    } else {
      assert (a + b)[1..] == a[1..] + b;
      StripConcat(a[1..], b, RegionAfter(a[0], inRegion));
    }
  }

  predicate HasNoEnd(lines: seq<string>) {
    forall k :: 0 <= k < |lines| ==> !IsEnd(lines[k])
  }

  lemma {:induction false} InsideRegion(lines: seq<string>)
    requires HasNoEnd(lines)
    ensures Strip(lines, true) == [] && StateAfter(lines, true)
  {
    hide OpensRegion, IsEnd;
    if lines != [] {
      InsideRegion(lines[1..]);
    }
  }

  lemma BeginOpens(line: string, key: string)
    requires IsBegin(line, key)
    ensures OpensRegion(line) && !IsEnd(line)
  {
    assert BeginMark(key)[2] == '>';
  }

  /** A segment that opens a region and does not close it contributes nothing. */
  lemma OpenSegment(begin: string, key: string, body: seq<string>, inRegion: bool)
    requires IsBegin(begin, key) && HasNoEnd(body)
    ensures Strip([begin] + body, inRegion) == [] && StateAfter([begin] + body, inRegion)
  {
    hide OpensRegion, IsEnd, IsBegin;
    BeginOpens(begin, key);
    InsideRegion(body);
    assert ([begin] + body)[1..] == body;
  }

  /** Lines before the first region are kept, and a region goes from its begin line to its end line. */
  lemma StripOfRegion(plain: seq<string>, begin: string, body: seq<string>, end: string, rest: seq<string>)
    requires forall k :: 0 <= k < |plain| ==> !OpensRegion(plain[k])
    requires OpensRegion(begin) && HasNoEnd(body) && IsEnd(end)
    ensures Strip(plain + ([begin] + body + [end]) + rest, false) == plain + Strip(rest, false)
  {
    hide OpensRegion, IsEnd, Strip, StateAfter, HasNoEnd;
    StripKeepsPlain(plain);
    RegionIsDropped(begin, body, end);
    var region := [begin] + body + [end];
    StripConcat(region, rest, false);
    StripConcat(plain, region + rest, false);
    assert plain + region + rest == plain + (region + rest);
  }

  lemma RegionIsDropped(begin: string, body: seq<string>, end: string)
    requires OpensRegion(begin) && HasNoEnd(body) && IsEnd(end)
    ensures Strip([begin] + body + [end], false) == [] && !StateAfter([begin] + body + [end], false)
  {
    hide OpensRegion, IsEnd;
    EndCloses(end);
    InsideRegion(body);
    StripOfEnd(end);
    StripConcat(body, [end], true);
    StateOfConcat(body, [end], true);
    assert [begin] + body + [end] == [begin] + (body + [end]);
    assert ([begin] + (body + [end]))[1..] == body + [end];
  }

  lemma {:induction false} StripKeepsPlain(lines: seq<string>)
    requires forall k :: 0 <= k < |lines| ==> !OpensRegion(lines[k])
    ensures Strip(lines, false) == lines && !StateAfter(lines, false)
  {
    hide OpensRegion, IsEnd;
    if lines != [] {
      StripKeepsPlain(lines[1..]);
      assert lines == [lines[0]] + lines[1..];
    }
  }

  lemma EndCloses(line: string)
    requires IsEnd(line)
    ensures !OpensRegion(line)
  {
    assert END_MARK[2] == '<';
  }

  lemma StripOfEnd(line: string)
    requires IsEnd(line) && !OpensRegion(line)
    ensures Strip([line], true) == [] && !StateAfter([line], true)
  {
    hide OpensRegion, IsEnd;
    assert [line][1..] == [];
  }

  lemma {:induction false} StateOfConcat(a: seq<string>, b: seq<string>, inRegion: bool)
    ensures StateAfter(a + b, inRegion) == StateAfter(b, StateAfter(a, inRegion))
  {
    hide OpensRegion, IsEnd;
    if a == [] {
      assert a + b == b;
    } else {
      assert (a + b)[1..] == a[1..] + b;
      StateOfConcat(a[1..], b, RegionAfter(a[0], inRegion));
    }
  }

  // ---- splicing ----

  function FindBegin(lines: seq<string>, key: string): (i: nat)
    ensures i <= |lines|
  {
    if lines == [] || IsBegin(lines[0], key) then 0 else 1 + FindBegin(lines[1..], key)
  }

  lemma {:induction false} FindsFirstBegin(lines: seq<string>, key: string)
    ensures forall k :: 0 <= k < FindBegin(lines, key) ==> !IsBegin(lines[k], key)
    ensures FindBegin(lines, key) < |lines| ==> IsBegin(lines[FindBegin(lines, key)], key)
  {
    hide IsBegin;
    if lines != [] && !IsBegin(lines[0], key) {
      FindsFirstBegin(lines[1..], key);
      forall k | 0 <= k < FindBegin(lines, key) ensures !IsBegin(lines[k], key) {
        assert k > 0 ==> lines[k] == lines[1..][k - 1];
      }
    }
  }

  function FindEnd(lines: seq<string>, start: nat): (i: nat)
    requires start <= |lines|
    ensures start <= i <= |lines|
    decreases |lines| - start
  {
    if start == |lines| || IsEnd(lines[start]) then start else FindEnd(lines, start + 1)
  }

  lemma {:induction false} FindsFirstEnd(lines: seq<string>, start: nat)
    requires start <= |lines|
    ensures forall k :: start <= k < FindEnd(lines, start) ==> !IsEnd(lines[k])
    ensures FindEnd(lines, start) < |lines| ==> IsEnd(lines[FindEnd(lines, start)])
    decreases |lines| - start
  {
    hide IsEnd;
    if start < |lines| && !IsEnd(lines[start]) {
      FindsFirstEnd(lines, start + 1);
    }
  }

  lemma {:induction false} FindEndFrom(lines: seq<string>, start: nat, later: nat)
    requires start <= |lines| && start <= later <= FindEnd(lines, start)
    ensures FindEnd(lines, later) == FindEnd(lines, start)
    decreases later - start
  {
    hide IsEnd;
    if start < later {
      FindEndFrom(lines, start + 1, later);
    }
  }

  /** The leading spaces of a line. */
  function IndentOf(line: string): (indent: string)
    ensures forall k :: 0 <= k < |indent| ==> indent[k] == ' '
  {
    if line != [] && line[0] == ' ' then " " + IndentOf(line[1..]) else ""
  }

  function TrimNewlines(s: string): string {
    if s != [] && s[|s| - 1] == '\n' then TrimNewlines(s[..|s| - 1]) else s
  }

  /** The lines a block contributes at an indent; empty lines stay empty. */
  function BlockLines(block: string, indent: string): (body: seq<string>)
  {
    var lines := Lines.Split(TrimNewlines(block));
    seq(|lines|, k requires 0 <= k < |lines| => if lines[k] == "" then "" else indent + lines[k])
  }

  function SpliceLines(lines: seq<string>, key: string, block: string): Result<seq<string>, SpliceError> {
    var start := FindBegin(lines, key);
    if start == |lines| then Err(NoSentinel)
    else
      var end := FindEnd(lines, start + 1);
      if end == |lines| then Err(NotClosed)
      else Ok(lines[..start + 1] + BlockLines(block, IndentOf(lines[start])) + lines[end..])
  }

  function Splice(doc: string, key: string, block: string): Result<string, SpliceError> {
    match SpliceLines(Lines.Split(doc), key, block)
    case Err(e) => Err(e)
    case Ok(lines) => Ok(Join(lines))
  }

  /** The indent is all the spaces in front, and trimming takes all the newlines at the end. */
  lemma {:induction false} IndentOfIs(spaces: string, rest: string)
    requires (forall k :: 0 <= k < |spaces| ==> spaces[k] == ' ') && (rest == "" || rest[0] != ' ')
    ensures IndentOf(spaces + rest) == spaces
  {
    if spaces == [] {
      assert spaces + rest == rest;
    } else {
      assert (spaces + rest)[1..] == spaces[1..] + rest;
      IndentOfIs(spaces[1..], rest);
      assert spaces == " " + spaces[1..];
    }
  }

  lemma {:induction false} TrimNewlinesIs(text: string, newlines: string)
    requires (forall k :: 0 <= k < |newlines| ==> newlines[k] == '\n') && (text == "" || text[|text| - 1] != '\n')
    ensures TrimNewlines(text + newlines) == text
    decreases |newlines|
  {
    if newlines == [] {
      assert text + newlines == text;
    } else {
      assert (text + newlines)[..|text + newlines| - 1] == text + newlines[..|newlines| - 1];
      TrimNewlinesIs(text, newlines[..|newlines| - 1]);
    }
  }

  /** The block's lines are the lines of its text, and each one that is not empty stands behind the indent. */
  lemma BlockLinesAre(text: string, newlines: string, indent: string)
    requires (forall k :: 0 <= k < |newlines| ==> newlines[k] == '\n') && (text == "" || text[|text| - 1] != '\n')
    ensures Join(BlockLines(text + newlines, "")) == text
    ensures |BlockLines(text + newlines, indent)| == |BlockLines(text + newlines, "")|
    ensures forall k :: 0 <= k < |BlockLines(text + newlines, "")| ==>
      var line := BlockLines(text + newlines, "")[k];
      BlockLines(text + newlines, indent)[k] == if line == "" then "" else indent + line
  {
    hide TrimNewlines;
    TrimNewlinesIs(text, newlines);
    JoinOfSplit(text);
    var lines := Lines.Split(text);
    forall k | 0 <= k < |lines| ensures BlockLines(text + newlines, "")[k] == lines[k] {
      assert "" + lines[k] == lines[k];
    }
    assert BlockLines(text + newlines, "") == lines;
  }

  /** A splice puts the block between the first begin line of the section and the next end line, at the indent of the
      begin line. */
  lemma SpliceOfRegion(before: seq<string>, begin: string, body: seq<string>, end: string, after: seq<string>,
      key: string, block: string)
    requires forall k :: 0 <= k < |before| ==> !IsBegin(before[k], key)
    requires IsBegin(begin, key) && HasNoEnd(body) && IsEnd(end)
    ensures SpliceLines(before + [begin] + body + [end] + after, key, block)
         == Ok(before + [begin] + BlockLines(block, IndentOf(begin)) + [end] + after)
  {
    hide IsBegin, IsEnd, FindBegin, FindEnd, BlockLines, IndentOf;
    var lines, s, e := before + [begin] + body + [end] + after, |before|, |before| + 1 + |body|;
    assert lines[s] == begin && lines[e] == end && lines[..s + 1] == before + [begin] && lines[e..] == [end] + after;
    forall k | 0 <= k < s ensures !IsBegin(lines[k], key) {
      assert lines[k] == before[k];
    }
    forall k | s + 1 <= k < e ensures !IsEnd(lines[k]) {
      assert lines[k] == body[k - s - 1];
    }
    FindBeginIs(lines, key, s);
    FindEndIs(lines, s + 1, e);
    var front := before + [begin] + BlockLines(block, IndentOf(begin));
    assert front + ([end] + after) == front + [end] + after;
  }

  /** The region of the section begins here and never ends. */
  predicate IsUnclosed(lines: seq<string>, key: string, s: int) {
    && 0 <= s < |lines| && IsBegin(lines[s], key)
    && (forall k :: 0 <= k < s ==> !IsBegin(lines[k], key))
    && forall k :: s < k < |lines| ==> !IsEnd(lines[k])
  }

  /** A splice fails without a begin line, or without an end line behind the first begin line. */
  lemma SpliceErrors(lines: seq<string>, key: string, block: string)
    ensures SpliceLines(lines, key, block) == Err(NoSentinel) <==> forall k :: 0 <= k < |lines| ==> !IsBegin(lines[k], key)
    ensures SpliceLines(lines, key, block) == Err(NotClosed) <==> exists s :: IsUnclosed(lines, key, s)
  {
    hide IsBegin, IsEnd, FindBegin, FindEnd, BlockLines, IndentOf;
    var s := FindBegin(lines, key);
    FindsFirstBegin(lines, key);
    if s < |lines| {
      FindsFirstEnd(lines, s + 1);
      if FindEnd(lines, s + 1) == |lines| {
        assert IsUnclosed(lines, key, s);
      }
    }
    forall t | IsUnclosed(lines, key, t) ensures s == t {
      FindBeginIs(lines, key, t);
    }
  }

  /** The texts of the marks. */
  lemma Marks(line: string, key: string)
    ensures OpensRegion(line) <==> "# >>> shared-components:" <= TrimSpace(line)
    ensures IsEnd(line) <==> TrimSpace(line) == "# <<< shared-components"
    ensures IsBegin(line, key) <==>
      TrimSpace(line)
      == "# >>> shared-components: " + key + ". Generated from tools/codegen/shared-components.yaml. Do not edit"
  {
    hide TrimSpace;
    assert BEGIN_PREFIX + " " == "# >>> shared-components: ";
  }

  lemma FindBeginIs(lines: seq<string>, key: string, i: nat)
    requires i < |lines| && IsBegin(lines[i], key) && forall k :: 0 <= k < i ==> !IsBegin(lines[k], key)
    ensures FindBegin(lines, key) == i
  {
    hide IsBegin, FindBegin;
    FindsFirstBegin(lines, key);
  }

  lemma FindEndIs(lines: seq<string>, start: nat, i: nat)
    requires start <= i < |lines| && IsEnd(lines[i]) && forall k :: start <= k < i ==> !IsEnd(lines[k])
    ensures FindEnd(lines, start) == i
  {
    hide IsEnd, FindEnd;
    FindsFirstEnd(lines, start);
  }

  /** The scan of `splice` for the sentinels, and the assembly of its result. */
  method SpliceLoop(doc: string, key: string, block: string) returns (r: Result<string, SpliceError>)
    ensures r == Splice(doc, key, block)
  {
    hide IsBegin, IsEnd, FindBegin, FindEnd, Lines.Split, Join, IndentOf;
    var lines := Lines.Split(doc);
    var startIdx, endIdx, indent := -1, -1, "";
    var i := 0;
    while i < |lines|
      invariant 0 <= i <= |lines| && endIdx == -1
      invariant startIdx == -1 ==> forall k :: 0 <= k < i ==> !IsBegin(lines[k], key)
      invariant startIdx != -1 ==>
        && 0 <= startIdx < i && startIdx == FindBegin(lines, key) && indent == IndentOf(lines[startIdx])
        && forall k :: startIdx < k < i ==> !IsEnd(lines[k])
    {
      if startIdx < 0 && IsBegin(lines[i], key) {
        startIdx := i;
        indent := IndentOf(lines[i]);
        FindBeginIs(lines, key, i);
      } else if startIdx >= 0 && IsEnd(lines[i]) {
        endIdx := i;
        FindEndIs(lines, startIdx + 1, i);
        break;
      }
      i := i + 1;
    }
    if startIdx < 0 {
      FindsFirstBegin(lines, key);
      return Err(NoSentinel);
    }
    if endIdx < 0 {
      FindsFirstEnd(lines, startIdx + 1);
      return Err(NotClosed);
    }
    var out := lines[..startIdx + 1];
    var blockLines := Lines.Split(TrimNewlines(block));
    for j := 0 to |blockLines|
      invariant out == lines[..startIdx + 1] + BlockLines(block, indent)[..j]
    {
      out := out + [if blockLines[j] == "" then "" else indent + blockLines[j]];
    }
    assert BlockLines(block, indent)[..|blockLines|] == BlockLines(block, indent);
    r := Ok(Join(out + lines[endIdx..]));
  }

  // ---- blocks that carry no sentinel ----

  /** No line of the block reads as the end mark. */
  predicate NeverCloses(block: string) {
    HasNoEnd(Lines.Split(TrimNewlines(block)))
  }

  predicate NeverBegins(block: string, key: string) {
    var lines := Lines.Split(TrimNewlines(block));
    forall k :: 0 <= k < |lines| ==> !IsBegin(lines[k], key)
  }

  lemma IndentedLine(indent: string, line: string)
    requires forall k :: 0 <= k < |indent| ==> indent[k] == ' '
    ensures TrimSpace(if line == "" then "" else indent + line) == TrimSpace(line)
  {
    TrimIgnoresIndent(indent, line);
  }

  lemma BlockHasNoEnd(block: string, indent: string)
    requires NeverCloses(block) && forall k :: 0 <= k < |indent| ==> indent[k] == ' '
    ensures HasNoEnd(BlockLines(block, indent))
  {
    var lines := Lines.Split(TrimNewlines(block));
    forall k | 0 <= k < |lines| ensures !IsEnd(BlockLines(block, indent)[k]) {
      IndentedLine(indent, lines[k]);
    }
  }

  lemma BlockHasNoBegin(block: string, indent: string, key: string)
    requires NeverBegins(block, key) && forall k :: 0 <= k < |indent| ==> indent[k] == ' '
    ensures forall k :: 0 <= k < |BlockLines(block, indent)| ==> !IsBegin(BlockLines(block, indent)[k], key)
  {
    var lines := Lines.Split(TrimNewlines(block));
    forall k | 0 <= k < |lines| ensures !IsBegin(BlockLines(block, indent)[k], key) {
      IndentedLine(indent, lines[k]);
    }
  }

  // ---- laws of one splice ----

  /** Splicing changes nothing outside the regions, wherever the regions lie. */
  lemma SpliceKeepsStripped(lines: seq<string>, key: string, block: string)
    requires NeverCloses(block) && SpliceLines(lines, key, block).Ok?
    ensures Strip(SpliceLines(lines, key, block).value, false) == Strip(lines, false)
  {
    hide IsBegin, IsEnd, OpensRegion, Strip, StateAfter, NeverCloses, BlockLines;
    var s := FindBegin(lines, key);
    var e := FindEnd(lines, s + 1);
    var before, after := lines[..s], lines[e..];
    var oldBody, newBody := lines[s + 1..e], BlockLines(block, IndentOf(lines[s]));
    BlockHasNoEnd(block, IndentOf(lines[s]));
    FindsFirstBegin(lines, key);
    FindsFirstEnd(lines, s + 1);
    SameOutside(before, lines[s], key, oldBody, newBody, after);
    assert lines == before + ([lines[s]] + oldBody) + after;
    assert SpliceLines(lines, key, block).value == before + ([lines[s]] + newBody) + after;
  }

  lemma SameOutside(before: seq<string>, begin: string, key: string, oldBody: seq<string>, newBody: seq<string>, after: seq<string>)
    requires IsBegin(begin, key) && HasNoEnd(oldBody) && HasNoEnd(newBody)
    ensures Strip(before + ([begin] + oldBody) + after, false) == Strip(before + ([begin] + newBody) + after, false)
  {
    hide IsBegin, IsEnd, OpensRegion, Strip, StateAfter;
    StripOfSegments(before, begin, key, oldBody, after);
    StripOfSegments(before, begin, key, newBody, after);
  }

  lemma StripOfSegments(before: seq<string>, begin: string, key: string, body: seq<string>, after: seq<string>)
    requires IsBegin(begin, key) && HasNoEnd(body)
    ensures Strip(before + ([begin] + body) + after, false) == Strip(before, false) + Strip(after, true)
  {
    hide IsBegin, IsEnd, OpensRegion, Strip, StateAfter, HasNoEnd;
    var state := StateAfter(before, false);
    var segment := [begin] + body;
    OpenSegment(begin, key, body, state);
    StripConcat(segment, after, state);
    StripConcat(before, segment + after, false);
    assert before + segment + after == before + (segment + after);
  }

  /** The region of the key holds exactly the block's lines. */
  predicate Holds(lines: seq<string>, key: string, block: string) {
    var s := FindBegin(lines, key);
    s < |lines| &&
    var e := FindEnd(lines, s + 1);
    e < |lines| && lines[s + 1..e] == BlockLines(block, IndentOf(lines[s]))
  }

  /** A splice leaves a text unchanged exactly when the region already holds the block. */
  lemma UnchangedIffHolds(lines: seq<string>, key: string, block: string)
    ensures SpliceLines(lines, key, block) == Ok(lines) <==> Holds(lines, key, block)
  {
    hide IsBegin, IsEnd, BlockLines, FindBegin, FindEnd;
    var s := FindBegin(lines, key);
    if s < |lines| {
      var e := FindEnd(lines, s + 1);
      var body := BlockLines(block, IndentOf(lines[s]));
      if e < |lines| {
        var out := lines[..s + 1] + body + lines[e..];
        if out == lines {
          assert |body| == e - s - 1;
          assert out[s + 1..e] == body;
        }
        if lines[s + 1..e] == body {
          assert out == lines;
        }
      }
    }
  }

  /** After a splice the region holds the block. */
  lemma SpliceHolds(lines: seq<string>, key: string, block: string)
    requires NeverCloses(block) && SpliceLines(lines, key, block).Ok?
    ensures Holds(SpliceLines(lines, key, block).value, key, block)
  {
    hide IsBegin, IsEnd, BlockLines, NeverCloses;
    var s := FindBegin(lines, key);
    var e := FindEnd(lines, s + 1);
    var body := BlockLines(block, IndentOf(lines[s]));
    var out := SpliceLines(lines, key, block).value;
    BlockHasNoEnd(block, IndentOf(lines[s]));
    FindsFirstBegin(lines, key);
    FindsFirstEnd(lines, s + 1);
    FindBeginIs(out, key, s);
    assert out[s + 1 + |body|] == lines[e];
    forall k | s + 1 <= k < s + 1 + |body| ensures !IsEnd(out[k]) {
      assert out[k] == body[k - s - 1];
    }
    FindEndIs(out, s + 1, s + 1 + |body|);
  }

  // ---- regions in joined lines ----

  lemma {:induction false} FindBeginOfConcat(a: seq<string>, b: seq<string>, key: string)
    ensures FindBegin(a + b, key) == if FindBegin(a, key) < |a| then FindBegin(a, key) else |a| + FindBegin(b, key)
  {
    hide IsBegin;
    if a == [] {
      assert a + b == b;
    } else {
      assert (a + b)[1..] == a[1..] + b;
      FindBeginOfConcat(a[1..], b, key);
    }
  }

  lemma {:induction false} FindEndOfConcat(a: seq<string>, b: seq<string>, start: nat)
    requires start <= |a|
    ensures FindEnd(a + b, start) == if FindEnd(a, start) < |a| then FindEnd(a, start) else |a| + FindEnd(b, 0)
    decreases |a| - start
  {
    hide IsEnd;
    if start == |a| {
      FindEndBehind(a, b, 0);
    } else {
      assert (a + b)[start] == a[start];
      FindEndOfConcat(a, b, start + 1);
    }
  }

  lemma {:induction false} FindEndBehind(a: seq<string>, b: seq<string>, start: nat)
    requires start <= |b|
    ensures FindEnd(a + b, |a| + start) == |a| + FindEnd(b, start)
    decreases |b| - start
  {
    hide IsEnd;
    if start < |b| {
      assert (a + b)[|a| + start] == b[start];
      FindEndBehind(a, b, start + 1);
    }
  }

  /** A region that closes before n is found at the same place in the first n lines. */
  lemma RegionInPrefix(lines: seq<string>, key: string, n: nat)
    requires FindBegin(lines, key) < n <= |lines| && FindEnd(lines, FindBegin(lines, key) + 1) < n
    ensures FindBegin(lines[..n], key) == FindBegin(lines, key)
    ensures FindEnd(lines[..n], FindBegin(lines, key) + 1) == FindEnd(lines, FindBegin(lines, key) + 1)
  {
    hide FindBegin, FindEnd;
    var a, b := lines[..n], lines[n..];
    assert lines == a + b;
    FindBeginOfConcat(a, b, key);
    FindEndOfConcat(a, b, FindBegin(lines, key) + 1);
  }

  lemma NoBegin(lines: seq<string>, key: string)
    requires forall k :: 0 <= k < |lines| ==> !IsBegin(lines[k], key)
    ensures FindBegin(lines, key) == |lines|
  {
    hide IsBegin, FindBegin;
    FindsFirstBegin(lines, key);
  }

  function Behind(a: seq<string>, r: Result<seq<string>, SpliceError>): Result<seq<string>, SpliceError> {
    if r.Err? then r else Ok(a + r.value)
  }

  function Assembled(lines: seq<string>, s: nat, e: nat, block: string): seq<string>
    requires s < e <= |lines|
  {
    lines[..s + 1] + BlockLines(block, IndentOf(lines[s])) + lines[e..]
  }

  lemma SpliceCases(lines: seq<string>, key: string, block: string)
    ensures var s := FindBegin(lines, key);
      if s == |lines| then SpliceLines(lines, key, block) == Err(NoSentinel)
      else var e := FindEnd(lines, s + 1);
        SpliceLines(lines, key, block) == if e == |lines| then Err(NotClosed) else Ok(Assembled(lines, s, e, block))
  {
    hide FindBegin, FindEnd, BlockLines, IndentOf;
  }

  lemma AssembledBehind(a: seq<string>, b: seq<string>, s: nat, e: nat, block: string)
    requires s < e <= |b|
    ensures Assembled(a + b, |a| + s, |a| + e, block) == a + Assembled(b, s, e, block)
  {
    hide BlockLines, IndentOf;
    assert (a + b)[|a| + s] == b[s];
    var front, body, back := b[..s + 1], BlockLines(block, IndentOf(b[s])), b[e..];
    assert (a + b)[..|a| + s + 1] == a + front && (a + b)[|a| + e..] == back;
    assert (a + front) + body + back == a + (front + body + back);
  }

  /** Lines in front without the begin mark are carried along by a splice, and do not decide how it fails. */
  lemma SpliceBehind(a: seq<string>, b: seq<string>, key: string, block: string)
    requires FindBegin(a, key) == |a|
    ensures SpliceLines(a + b, key, block) == Behind(a, SpliceLines(b, key, block))
  {
    hide FindBegin, FindEnd, SpliceLines, Assembled;
    FindBeginOfConcat(a, b, key);
    SpliceCases(a + b, key, block);
    SpliceCases(b, key, block);
    var s := FindBegin(b, key);
    if s < |b| {
      FindEndBehind(a, b, s + 1);
      AssembledBehind(a, b, s, FindEnd(b, s + 1), block);
    }
  }

  /** A region that lies in the front part holds the block there. */
  lemma HoldsInFront(a: seq<string>, b: seq<string>, key: string, block: string)
    requires FindBegin(a, key) < |a| && FindEnd(a, FindBegin(a, key) + 1) < |a|
    ensures Holds(a + b, key, block) <==> Holds(a, key, block)
  {
    hide IsBegin, IsEnd, BlockLines, FindBegin, FindEnd, IndentOf;
    var s := FindBegin(a, key);
    var e := FindEnd(a, s + 1);
    FindBeginOfConcat(a, b, key);
    FindEndOfConcat(a, b, s + 1);
    assert (a + b)[s] == a[s] && (a + b)[s + 1..e] == a[s + 1..e];
  }

  /** Lines in front without the begin mark do not matter. */
  lemma HoldsBehind(a: seq<string>, b: seq<string>, key: string, block: string)
    requires FindBegin(a, key) == |a|
    ensures Holds(a + b, key, block) <==> Holds(b, key, block)
  {
    hide IsBegin, IsEnd, BlockLines, FindBegin, FindEnd, IndentOf;
    FindBeginOfConcat(a, b, key);
    var s := FindBegin(b, key);
    if s < |b| {
      FindEndBehind(a, b, s + 1);
      SliceBehind(a, b, s + 1, FindEnd(b, s + 1));
      assert (a + b)[|a| + s] == b[s];
    }
  }

  lemma SliceBehind<T>(a: seq<T>, b: seq<T>, i: nat, j: nat)
    requires i <= j <= |b|
    ensures (a + b)[|a| + i..|a| + j] == b[i..j]
  {
  }
}
