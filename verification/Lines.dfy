/** Texts as lines: splitting at newlines, joining, and trimming white space. */
module Lines {

  predicate IsLine(line: string) {
    '\n' !in line
  }

  predicate AreLines(lines: seq<string>) {
    forall k :: 0 <= k < |lines| ==> IsLine(lines[k])
  }

  /** The lines of a text; a text always has at least one. */
  function Split(text: string): (lines: seq<string>)
    ensures |lines| > 0 && AreLines(lines)
  {
    if text == [] then [""]
    else
      var rest := Split(text[1..]);
      if text[0] == '\n' then [""] + rest else [[text[0]] + rest[0]] + rest[1..]
  }

  function Join(lines: seq<string>): string {
    if |lines| == 0 then "" else if |lines| == 1 then lines[0] else lines[0] + "\n" + Join(lines[1..])
  }

  lemma {:induction false} JoinOfSplit(text: string)
    ensures Join(Split(text)) == text
  {
    if text != [] {
      var rest := Split(text[1..]);
      JoinOfSplit(text[1..]);
      if text[0] == '\n' {
        assert Split(text)[1..] == rest;
      } else {
        assert Split(text)[1..] == rest[1..];
        assert text == [text[0]] + text[1..];
      }
    }
  }

  lemma {:induction false} SplitOfLine(line: string)
    requires IsLine(line)
    ensures Split(line) == [line]
  {
    if line != [] {
      SplitOfLine(line[1..]);
      assert line[0] in line && line == [line[0]] + line[1..];
    }
  }

  lemma {:induction false} SplitAfterLine(line: string, rest: string)
    requires IsLine(line)
    ensures Split(line + "\n" + rest) == [line] + Split(rest)
  {
    var text := line + "\n" + rest;
    if line == [] {
      assert text == ['\n'] + rest;
      assert text[1..] == rest;
    } else {
      assert text[1..] == line[1..] + "\n" + rest && text[0] == line[0] && line[0] in line;
      SplitAfterLine(line[1..], rest);
      assert ([line[1..]] + Split(rest))[1..] == Split(rest);
      assert [line[0]] + line[1..] == line;
    }
  }

  lemma {:induction false} SplitOfJoin(lines: seq<string>)
    requires |lines| > 0 && AreLines(lines)
    ensures Split(Join(lines)) == lines
  {
    if |lines| == 1 {
      SplitOfLine(lines[0]);
      assert lines == [lines[0]];
    } else {
      SplitOfJoin(lines[1..]);
      SplitAfterLine(lines[0], Join(lines[1..]));
      assert lines == [lines[0]] + lines[1..];
    }
  }

  // ---- white space ----

  /** unicode.IsSpace. */
  predicate IsSpace(c: char) {
    || c == ' ' || '\t' <= c <= '\r' || c == '\U{85}' || c == '\U{A0}' || c == '\U{1680}'
    || '\U{2000}' <= c <= '\U{200A}' || c == '\U{2028}' || c == '\U{2029}'
    || c == '\U{202F}' || c == '\U{205F}' || c == '\U{3000}'
  }

  function TrimLeft(s: string): string {
    if s != [] && IsSpace(s[0]) then TrimLeft(s[1..]) else s
  }

  function TrimRight(s: string): string {
    if s != [] && IsSpace(s[|s| - 1]) then TrimRight(s[..|s| - 1]) else s
  }

  function TrimSpace(s: string): string {
    TrimRight(TrimLeft(s))
  }

  /** White space in front does not change the trimmed text. */
  lemma {:induction false} TrimIgnoresIndent(indent: string, s: string)
    requires forall k :: 0 <= k < |indent| ==> IsSpace(indent[k])
    ensures TrimSpace(indent + s) == TrimSpace(s)
  {
    if indent == [] {
      assert indent + s == s;
    } else {
      assert (indent + s)[1..] == indent[1..] + s;
      TrimIgnoresIndent(indent[1..], s);
    }
  }

  /** The code points of unicode.IsSpace. */
  lemma SpaceCodes(c: char)
    ensures IsSpace(c) <==> c as int in {
      0x09, 0x0A, 0x0B, 0x0C, 0x0D, 0x20, 0x85, 0xA0, 0x1680,
      0x2000, 0x2001, 0x2002, 0x2003, 0x2004, 0x2005, 0x2006, 0x2007, 0x2008, 0x2009, 0x200A,
      0x2028, 0x2029, 0x202F, 0x205F, 0x3000}
  {
  }

  /** White space around a text goes, and nothing else does. */
  lemma {:induction false} TrimIs(before: string, s: string, after: string)
    requires forall k :: 0 <= k < |before| ==> IsSpace(before[k])
    requires forall k :: 0 <= k < |after| ==> IsSpace(after[k])
    requires s != [] && !IsSpace(s[0]) && !IsSpace(s[|s| - 1])
    ensures TrimSpace(before + s + after) == s
    decreases |after|
  {
    hide IsSpace;
    TrimIgnoresIndent(before, s + after);
    assert before + s + after == before + (s + after);
    if after == [] {
      TrimOfTrimmed(s);
      assert s + after == s;
    } else {
      var shorter := after[..|after| - 1];
      TrimIs([], s, shorter);
      assert [] + s + shorter == s + shorter && (s + after)[..|s + after| - 1] == s + shorter;
    }
  }

  lemma {:induction false} TrimOfSpace(s: string)
    requires forall k :: 0 <= k < |s| ==> IsSpace(s[k])
    ensures TrimSpace(s) == []
  {
    hide IsSpace;
    if s != [] {
      TrimOfSpace(s[1..]);
    }
  }

  /** Text with no white space at its ends is already trimmed. */
  lemma TrimOfTrimmed(s: string)
    requires s != [] ==> !IsSpace(s[0]) && !IsSpace(s[|s| - 1])
    ensures TrimSpace(s) == s
  {
  }
}
