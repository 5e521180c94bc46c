/** The layout check on call arguments and the edits that satisfy it. */
module CallLayout {
  import opened Text
  import opened Wrappers

  // ---- positions and lines ----

  /** An argument: the offset of its first character and the offset after its last one. */
  datatype Arg = Arg(pos: nat, end: nat)

  /** A call: the offsets of its parens, its arguments, and where the `...` of a spread argument starts. */
  datatype Call = Call(lparen: nat, args: seq<Arg>, ellipsis: Option<nat>, rparen: nat)

  function Newlines(s: string): nat {
    if s == "" then 0 else Newlines(s[..|s| - 1]) + if s[|s| - 1] == '\n' then 1 else 0
  }

  /** The line of an offset. */
  function Line(text: string, offset: nat): nat
    requires offset <= |text|
  {
    1 + Newlines(text[..offset])
  }

  /** Non-empty arguments in source order between the parens, and the dots after the last of them. */
  predicate Valid(text: string, call: Call) {
    && call.lparen < call.rparen < |text|
    && (forall i :: 0 <= i < |call.args| ==> call.lparen < call.args[i].pos < call.args[i].end <= call.rparen)
    && (forall i, j :: 0 <= i < j < |call.args| ==> call.args[i].end <= call.args[j].pos)
    && (call.ellipsis.Some? ==> LastDots(call))
  }

  predicate LastDots(call: Call) {
    call.ellipsis.Some? && |call.args| > 0
    && call.args[|call.args| - 1].end <= call.ellipsis.value && call.ellipsis.value + 3 <= call.rparen
  }

  // ---- the check ----

  predicate IsSingleLine(text: string, call: Call)
    requires Valid(text, call)
  {
    Line(text, call.lparen) == Line(text, call.rparen)
  }

  predicate IsFullyExploded(text: string, call: Call)
    requires Valid(text, call) && call.args != []
  {
    && Line(text, call.lparen) != Line(text, call.args[0].pos)
    && Line(text, call.rparen) != Line(text, call.args[|call.args| - 1].end)
    && forall i :: 1 <= i < |call.args| ==> Line(text, call.args[i - 1].end) != Line(text, call.args[i].pos)
  }

  /** A call whose layout is a mix. A call with no arguments has no layout. */
  predicate Reported(text: string, call: Call)
    requires Valid(text, call)
  {
    call.args != [] && !IsSingleLine(text, call) && !IsFullyExploded(text, call)
  }

  // ---- the fix ----

  /** An insertion before the offset `at`. */
  datatype Edit = Edit(at: nat, text: string)

  /** The offset that argument i follows: the opening paren, or the end of the argument before. */
  function PrevEnd(call: Call, i: nat): nat
    requires i < |call.args|
  {
    if i == 0 then call.lparen else call.args[i - 1].end
  }

  /** Argument i starts on the line where what it follows ends. */
  predicate Joined(text: string, call: Call, i: nat)
    requires Valid(text, call) && i < |call.args|
  {
    Line(text, PrevEnd(call, i)) == Line(text, call.args[i].pos)
  }

  function LastEnd(call: Call): nat
    requires call.args != []
  {
    if call.ellipsis.Some? then call.ellipsis.value + 3 else call.args[|call.args| - 1].end
  }

  /** The edits for the first n arguments: a line break before each one that shares a line with what it follows. */
  function ArgEdits(text: string, call: Call, n: nat): seq<Edit>
    requires Valid(text, call) && n <= |call.args|
  {
    if n == 0 then []
    else
      ArgEdits(text, call, n - 1)
      + if Joined(text, call, n - 1) then [Edit(call.args[n - 1].pos, "\n")] else []
  }

  function Edits(text: string, call: Call): seq<Edit>
    requires Valid(text, call) && call.args != []
  {
    ArgEdits(text, call, |call.args|)
    + if Line(text, LastEnd(call)) == Line(text, call.rparen) then [Edit(LastEnd(call), ",\n")] else []
  }

  method ExplodeEdits(text: string, call: Call) returns (edits: seq<Edit>)
    requires Valid(text, call) && call.args != []
    ensures edits == Edits(text, call)
  {
    hide Line;
    edits := [];
    var prevEnd := call.lparen;
    for i := 0 to |call.args|
      invariant prevEnd == if i == 0 then call.lparen else call.args[i - 1].end
      invariant edits == ArgEdits(text, call, i)
    {
      var arg := call.args[i];
      if Line(text, prevEnd) == Line(text, arg.pos) {
        edits := edits + [Edit(arg.pos, "\n")];
      }
      prevEnd := arg.end;
    }
    var lastEnd := call.args[|call.args| - 1].end;
    if call.ellipsis.Some? {
      lastEnd := call.ellipsis.value + |"..."|;
    }
    if Line(text, lastEnd) == Line(text, call.rparen) {
      edits := edits + [Edit(lastEnd, ",\n")];
    }
  }

  // ---- applying edits ----

  /** What the edits insert before an offset, in order. */
  function InsertedAt(edits: seq<Edit>, p: nat): string {
    if edits == [] then ""
    else InsertedAt(edits[..|edits| - 1], p) + if edits[|edits| - 1].at == p then edits[|edits| - 1].text else ""
  }

  /** The first n characters, with everything the edits insert before any of them. */
  function Upto(text: string, edits: seq<Edit>, n: nat): string
    requires n <= |text|
  {
    if n == 0 then "" else Upto(text, edits, n - 1) + InsertedAt(edits, n - 1) + [text[n - 1]]
  }

  function Applied(text: string, edits: seq<Edit>): string {
    Upto(text, edits, |text|) + InsertedAt(edits, |text|)
  }

  /** Where a token that started at p starts now. */
  function StartAt(text: string, edits: seq<Edit>, p: nat): nat
    requires p <= |text|
  {
    |Upto(text, edits, p)| + |InsertedAt(edits, p)|
  }

  /** Where a token that ended at p ends now. */
  function EndAt(text: string, edits: seq<Edit>, p: nat): nat
    requires p <= |text|
  {
    |Upto(text, edits, p)|
  }

  /** The same call in the edited text. */
  function Moved(text: string, edits: seq<Edit>, call: Call): Call
    requires Valid(text, call)
  {
    Call(
      StartAt(text, edits, call.lparen),
      seq(|call.args|, i requires 0 <= i < |call.args| =>
        Arg(StartAt(text, edits, call.args[i].pos), EndAt(text, edits, call.args[i].end))),
      if call.ellipsis.Some? then Some(StartAt(text, edits, call.ellipsis.value)) else None,
      StartAt(text, edits, call.rparen))
  }

  /** The line breaks inserted before offsets below n. */
  function Added(edits: seq<Edit>, n: nat): nat {
    if n == 0 then 0 else Added(edits, n - 1) + Newlines(InsertedAt(edits, n - 1))
  }

  // ---- counting lines ----

  lemma {:induction false} NewlinesConcat(a: string, b: string)
    ensures Newlines(a + b) == Newlines(a) + Newlines(b)
  {
    if b == "" {
      assert a + b == a;
    } else {
      var b' := b[..|b| - 1];
      NewlinesConcat(a, b');
      assert (a + b)[..|a + b| - 1] == a + b';
    }
  }

  lemma {:induction false} NoNewlines(s: string)
    ensures Newlines(s) == 0 <==> '\n' !in s
  {
    if s != "" {
      NoNewlines(s[..|s| - 1]);
      assert s == s[..|s| - 1] + [s[|s| - 1]];
    }
  }

  /** Two offsets are on one line if and only if no line break stands between them. */
  lemma SameLineIff(text: string, p: nat, q: nat)
    requires p <= q <= |text|
    ensures Line(text, p) == Line(text, q) <==> '\n' !in text[p..q]
  {
    assert text[..q] == text[..p] + text[p..q];
    NewlinesConcat(text[..p], text[p..q]);
    NoNewlines(text[p..q]);
  }

  /** A call is reported if and only if it has arguments, a line break stands between its parens, and one is missing
      before some argument or between the last one and the closing paren. */
  lemma ReportedIff(text: string, call: Call)
    requires Valid(text, call)
    ensures Reported(text, call) <==>
      && call.args != []
      && '\n' in text[call.lparen..call.rparen]
      && (|| (exists i :: 1 <= i < |call.args| && '\n' !in text[call.args[i - 1].end..call.args[i].pos])
          || '\n' !in text[call.lparen..call.args[0].pos]
          || '\n' !in text[call.args[|call.args| - 1].end..call.rparen])
  {
    hide Line;
    SameLineIff(text, call.lparen, call.rparen);
    if call.args != [] {
      SameLineIff(text, call.lparen, call.args[0].pos);
      SameLineIff(text, call.args[|call.args| - 1].end, call.rparen);
      forall i | 1 <= i < |call.args|
        ensures Line(text, call.args[i - 1].end) == Line(text, call.args[i].pos) <==>
          '\n' !in text[call.args[i - 1].end..call.args[i].pos]
      {
        SameLineIff(text, call.args[i - 1].end, call.args[i].pos);
      }
    }
  }

  lemma LineMonotone(text: string, p: nat, q: nat)
    requires p <= q <= |text|
    ensures Line(text, p) <= Line(text, q)
  {
    assert text[..q] == text[..p] + text[p..q];
    NewlinesConcat(text[..p], text[p..q]);
  }

  lemma {:induction false} AddedMonotone(edits: seq<Edit>, p: nat, q: nat)
    requires p <= q
    ensures Added(edits, p) <= Added(edits, q)
    decreases q - p
  {
    if p < q {
      AddedMonotone(edits, p, q - 1);
    }
  }

  lemma {:induction false} UptoIsPrefix(text: string, edits: seq<Edit>, p: nat, q: nat)
    requires p < q <= |text|
    ensures StartAt(text, edits, p) < |Upto(text, edits, q)|
    ensures Upto(text, edits, q)[..StartAt(text, edits, p)] == Upto(text, edits, p) + InsertedAt(edits, p)
    decreases q
  {
    if p + 1 < q {
      UptoIsPrefix(text, edits, p, q - 1);
    }
  }

  lemma {:induction false} NewlinesUpto(text: string, edits: seq<Edit>, n: nat)
    requires n <= |text|
    ensures Newlines(Upto(text, edits, n)) == Newlines(text[..n]) + Added(edits, n)
  {
    if n == 0 {
      assert text[..0] == "";
    } else {
      var before, inserted, last := Upto(text, edits, n - 1), InsertedAt(edits, n - 1), [text[n - 1]];
      NewlinesUpto(text, edits, n - 1);
      NewlinesConcat(before, inserted);
      NewlinesConcat(before + inserted, last);
      NewlinesConcat(text[..n - 1], last);
      assert text[..n] == text[..n - 1] + last;
      assert Added(edits, n) == Added(edits, n - 1) + Newlines(inserted);
    }
  }

  lemma StartPrefix(text: string, edits: seq<Edit>, p: nat)
    requires p <= |text|
    ensures StartAt(text, edits, p) <= |Applied(text, edits)|
    ensures Applied(text, edits)[..StartAt(text, edits, p)] == Upto(text, edits, p) + InsertedAt(edits, p)
  {
    if p < |text| {
      UptoIsPrefix(text, edits, p, |text|);
    }
  }

  /** A start moves down by the line breaks inserted up to and at it. */
  lemma LineOfStart(text: string, edits: seq<Edit>, p: nat)
    requires p <= |text|
    ensures StartAt(text, edits, p) <= |Applied(text, edits)|
    ensures Line(Applied(text, edits), StartAt(text, edits, p)) == Line(text, p) + Added(edits, p + 1)
  {
    StartPrefix(text, edits, p);
    NewlinesConcat(Upto(text, edits, p), InsertedAt(edits, p));
    NewlinesUpto(text, edits, p);
  }

  /** An end moves down by the line breaks inserted before it. */
  lemma LineOfEnd(text: string, edits: seq<Edit>, p: nat)
    requires p <= |text|
    ensures EndAt(text, edits, p) <= |Applied(text, edits)|
    ensures Line(Applied(text, edits), EndAt(text, edits, p)) == Line(text, p) + Added(edits, p)
  {
    StartPrefix(text, edits, p);
    var upto := Upto(text, edits, p);
    assert Applied(text, edits)[..|upto|] == (upto + InsertedAt(edits, p))[..|upto|] == upto;
    NewlinesUpto(text, edits, p);
  }

  // ---- the moved call ----

  lemma StartsInOrder(text: string, edits: seq<Edit>, p: nat, q: nat)
    requires p < q <= |text|
    ensures StartAt(text, edits, p) < EndAt(text, edits, q) <= StartAt(text, edits, q)
  {
    UptoIsPrefix(text, edits, p, q);
  }

  lemma EndsBeforeStart(text: string, edits: seq<Edit>, p: nat, q: nat)
    requires p <= q <= |text|
    ensures EndAt(text, edits, p) <= StartAt(text, edits, q)
  {
    if p < q {
      StartsInOrder(text, edits, p, q);
    }
  }

  lemma MovedDots(text: string, edits: seq<Edit>, call: Call)
    requires Valid(text, call) && call.ellipsis.Some?
    ensures LastDots(Moved(text, edits, call))
  {
    var e := call.ellipsis.value;
    EndsBeforeStart(text, edits, call.args[|call.args| - 1].end, e);
    StartsInOrder(text, edits, e, e + 1);
    StartsInOrder(text, edits, e + 1, e + 2);
    StartsInOrder(text, edits, e + 2, e + 3);
    EndsBeforeStart(text, edits, e + 3, call.rparen);
  }

  lemma MovedIsValid(text: string, edits: seq<Edit>, call: Call)
    requires Valid(text, call)
    ensures Valid(Applied(text, edits), Moved(text, edits, call))
  {
    hide LastDots;
    var after := Moved(text, edits, call);
    StartsInOrder(text, edits, call.lparen, call.rparen);
    StartsInOrder(text, edits, call.rparen, |text|);
    forall i | 0 <= i < |call.args|
      ensures after.lparen < after.args[i].pos < after.args[i].end <= after.rparen
    {
      StartsInOrder(text, edits, call.lparen, call.args[i].pos);
      StartsInOrder(text, edits, call.args[i].pos, call.args[i].end);
      EndsBeforeStart(text, edits, call.args[i].end, call.rparen);
    }
    forall i, j | 0 <= i < j < |call.args| ensures after.args[i].end <= after.args[j].pos {
      EndsBeforeStart(text, edits, call.args[i].end, call.args[j].pos);
    }
    if call.ellipsis.Some? {
      MovedDots(text, edits, call);
    }
  }

  // ---- what one call's edits do ----

  /** There is a line break in the insertions at p. */
  predicate BreaksAt(edits: seq<Edit>, p: nat) {
    exists e :: e in edits && e.at == p && Newlines(e.text) > 0
  }

  lemma {:induction false} BreakIsAdded(edits: seq<Edit>, p: nat)
    requires BreaksAt(edits, p)
    ensures Added(edits, p) < Added(edits, p + 1)
  {
    BreakIsInserted(edits, p);
  }

  lemma {:induction false} BreakIsInserted(edits: seq<Edit>, p: nat)
    requires BreaksAt(edits, p)
    ensures Newlines(InsertedAt(edits, p)) > 0
  {
    var front, last := edits[..|edits| - 1], edits[|edits| - 1];
    NewlinesConcat(InsertedAt(front, p), if last.at == p then last.text else "");
    if !(last.at == p && Newlines(last.text) > 0) {
      var e :| e in edits && e.at == p && Newlines(e.text) > 0;
      assert edits == front + [last];
      assert e in front;
      BreakIsInserted(front, p);
    }
  }

  lemma {:induction false} NothingInserted(edits: seq<Edit>, p: nat)
    requires forall e :: e in edits ==> e.at != p
    ensures InsertedAt(edits, p) == ""
  {
    if edits != [] {
      NothingInserted(edits[..|edits| - 1], p);
    }
  }

  lemma {:induction false} NothingAdded(edits: seq<Edit>, p: nat, q: nat)
    requires p <= q && forall e :: e in edits ==> !(p <= e.at < q)
    ensures Added(edits, p) == Added(edits, q)
    decreases q - p
  {
    hide InsertedAt;
    if p < q {
      NothingAdded(edits, p, q - 1);
      NothingInserted(edits, q - 1);
      assert Newlines("") == 0;
    }
  }

  lemma {:induction false} ArgEditsAre(text: string, call: Call, n: nat, e: Edit)
    requires Valid(text, call) && n <= |call.args|
    ensures e in ArgEdits(text, call, n) <==>
            && e.text == "\n"
            && exists i :: 0 <= i < n && e.at == call.args[i].pos && Joined(text, call, i)
  {
    hide Joined;
    if n > 0 {
      ArgEditsAre(text, call, n - 1, e);
    }
  }

  /** After edits that break wherever this call needs it, the call is laid out one argument per line. */
  lemma BrokenIsExploded(text: string, edits: seq<Edit>, call: Call)
    requires Valid(text, call) && call.args != []
    requires forall i :: 0 <= i < |call.args| && Joined(text, call, i) ==> BreaksAt(edits, call.args[i].pos)
    requires Line(text, call.args[|call.args| - 1].end) == Line(text, call.rparen) ==> BreaksAt(edits, LastEnd(call))
    ensures Valid(Applied(text, edits), Moved(text, edits, call))
    ensures IsFullyExploded(Applied(text, edits), Moved(text, edits, call))
  {
    hide Line, BreaksAt, Added, Applied, StartAt, EndAt, Joined;
    MovedIsValid(text, edits, call);
    var after, moved := Applied(text, edits), Moved(text, edits, call);
    forall i | 0 <= i < |moved.args| ensures !Joined(after, moved, i) {
      GapIsBroken(text, edits, call, i);
    }
    LastIsBroken(text, edits, call);
    ExplodedByGaps(after, moved);
  }

  /** The check, in terms of the gaps before the arguments and after the last one. */
  lemma ExplodedByGaps(text: string, call: Call)
    requires Valid(text, call) && call.args != []
    ensures IsFullyExploded(text, call) <==>
            && (forall i :: 0 <= i < |call.args| ==> !Joined(text, call, i))
            && Line(text, call.rparen) != Line(text, call.args[|call.args| - 1].end)
  {
    hide Line;
    assert Joined(text, call, 0) <==> Line(text, call.lparen) == Line(text, call.args[0].pos);
    assert forall i :: 1 <= i < |call.args| ==>
      (Joined(text, call, i) <==> Line(text, call.args[i - 1].end) == Line(text, call.args[i].pos));
  }

  lemma GapIsBroken(text: string, edits: seq<Edit>, call: Call, i: nat)
    requires Valid(text, call) && i < |call.args|
    requires Joined(text, call, i) ==> BreaksAt(edits, call.args[i].pos)
    ensures Valid(Applied(text, edits), Moved(text, edits, call))
    ensures !Joined(Applied(text, edits), Moved(text, edits, call), i)
  {
    hide Line, BreaksAt, Added, Applied, StartAt, EndAt;
    MovedIsValid(text, edits, call);
    var p, q := PrevEnd(call, i), call.args[i].pos;
    LineMonotone(text, p, q);
    LineOfStart(text, edits, p);
    LineOfEnd(text, edits, p);
    LineOfStart(text, edits, q);
    AddedMonotone(edits, p, q);
    AddedMonotone(edits, q, q + 1);
    if i == 0 {
      AddedMonotone(edits, p + 1, q);
    }
    if BreaksAt(edits, q) {
      BreakIsAdded(edits, q);
    }
  }

  lemma LastIsBroken(text: string, edits: seq<Edit>, call: Call)
    requires Valid(text, call) && call.args != []
    requires Line(text, call.args[|call.args| - 1].end) == Line(text, call.rparen) ==> BreaksAt(edits, LastEnd(call))
    ensures var end := call.args[|call.args| - 1].end;
            && EndAt(text, edits, end) <= |Applied(text, edits)|
            && StartAt(text, edits, call.rparen) <= |Applied(text, edits)|
            && Line(Applied(text, edits), EndAt(text, edits, end))
               < Line(Applied(text, edits), StartAt(text, edits, call.rparen))
  {
    hide Line, BreaksAt, Added, Applied, StartAt, EndAt;
    var end, lastEnd, rparen := call.args[|call.args| - 1].end, LastEnd(call), call.rparen;
    LineMonotone(text, end, lastEnd);
    LineMonotone(text, lastEnd, rparen);
    LineOfEnd(text, edits, end);
    LineOfStart(text, edits, rparen);
    AddedMonotone(edits, end, lastEnd);
    AddedMonotone(edits, lastEnd, lastEnd + 1);
    AddedMonotone(edits, lastEnd + 1, rparen + 1);
    if BreaksAt(edits, lastEnd) {
      BreakIsAdded(edits, lastEnd);
    }
  }

  /** Every place where this call joins lines has an edit, and the edits stand at arguments or after the last one. */
  lemma EditsBreak(text: string, call: Call)
    requires Valid(text, call) && call.args != []
    ensures forall i :: 0 <= i < |call.args| && Joined(text, call, i) ==> Edit(call.args[i].pos, "\n") in Edits(text, call)
    ensures Line(text, LastEnd(call)) == Line(text, call.rparen) ==> Edit(LastEnd(call), ",\n") in Edits(text, call)
    ensures forall e :: e in Edits(text, call) ==>
              e.at == LastEnd(call) || exists i :: 0 <= i < |call.args| && e.at == call.args[i].pos
  {
    hide Joined;
    var n := |call.args|;
    forall i | 0 <= i < n && Joined(text, call, i)
      ensures Edit(call.args[i].pos, "\n") in ArgEdits(text, call, n)
    {
      ArgEditsAre(text, call, n, Edit(call.args[i].pos, "\n"));
    }
    forall e | e in ArgEdits(text, call, n) ensures exists i :: 0 <= i < n && e.at == call.args[i].pos {
      ArgEditsAre(text, call, n, e);
    }
  }

  /** The fix satisfies the check, whatever else the text holds. */
  lemma FixExplodes(text: string, call: Call)
    requires Valid(text, call) && call.args != []
    ensures var edits := Edits(text, call);
            && Valid(Applied(text, edits), Moved(text, edits, call))
            && IsFullyExploded(Applied(text, edits), Moved(text, edits, call))
  {
    hide Line, Applied, Moved, Joined, Edits, IsFullyExploded;
    EditsBreakAll(text, call, Edits(text, call));
    BrokenIsExploded(text, Edits(text, call), call);
  }

  lemma EditsBreakAll(text: string, call: Call, edits: seq<Edit>)
    requires Valid(text, call) && call.args != []
    requires forall e :: e in Edits(text, call) ==> e in edits
    ensures forall i :: 0 <= i < |call.args| && Joined(text, call, i) ==> BreaksAt(edits, call.args[i].pos)
    ensures Line(text, call.args[|call.args| - 1].end) == Line(text, call.rparen) ==> BreaksAt(edits, LastEnd(call))
  {
    hide Line, Joined, Edits;
    EditsBreak(text, call);
    LineMonotone(text, call.args[|call.args| - 1].end, LastEnd(call));
    LineMonotone(text, LastEnd(call), call.rparen);
    assert Newlines("\n") == 1 && Newlines(",\n") == 1 by {
      NewlinesConcat(",", "\n");
    }
  }

  /** There is nothing to insert exactly when the call is laid out and the last argument, dots included, ends above the
      closing paren. */
  lemma NoEditsIffExploded(text: string, call: Call)
    requires Valid(text, call) && call.args != []
    ensures Edits(text, call) == [] <==>
            IsFullyExploded(text, call) && Line(text, LastEnd(call)) != Line(text, call.rparen)
    ensures Line(text, LastEnd(call)) == Line(text, call.args[|call.args| - 1].end) ==>
            (Edits(text, call) == [] <==> IsFullyExploded(text, call))
  {
    hide Line, Joined, IsFullyExploded, ArgEdits;
    var n := |call.args|;
    ExplodedByGaps(text, call);
    EditsBreak(text, call);
    LineMonotone(text, call.args[n - 1].end, LastEnd(call));
    LineMonotone(text, LastEnd(call), call.rparen);
    var edits := ArgEdits(text, call, n);
    if edits != [] {
      ArgEditsAre(text, call, n, edits[0]);
    }
  }

  // ---- the fix keeps the program ----

  lemma {:induction false} UneditedSpan(text: string, edits: seq<Edit>, p: nat, q: nat)
    requires p < q <= |text| && forall e :: e in edits ==> !(p < e.at < q)
    ensures Upto(text, edits, q) == Upto(text, edits, p) + InsertedAt(edits, p) + text[p..q]
    decreases q
  {
    hide InsertedAt;
    if p + 1 == q {
      assert text[p..q] == [text[p]];
    } else {
      UneditedSpan(text, edits, p, q - 1);
      NothingInserted(edits, q - 1);
      var before, span, last := Upto(text, edits, p) + InsertedAt(edits, p), text[p..q - 1], [text[q - 1]];
      assert Upto(text, edits, q) == before + span + "" + last;
      assert text[p..q] == span + last;
      assert before + span + "" + last == before + (span + last);
    }
  }

  /** One edit puts its text before its offset, and leaves the rest of the text. */
  lemma AppliedOne(text: string, e: Edit)
    requires e.at <= |text|
    ensures Applied(text, [e]) == text[..e.at] + e.text + text[e.at..]
  {
    hide InsertedAt, Upto;
    InsertedOne(e);
    assert Upto(text, [e], 0) == "" by { UptoNothing(text, [e]); }
    if 0 < e.at {
      UneditedSpan(text, [e], 0, e.at);
      NothingInserted([e], 0);
    }
    assert Upto(text, [e], e.at) == text[..e.at];
    if e.at < |text| {
      UneditedSpan(text, [e], e.at, |text|);
      NothingInserted([e], |text|);
    }
  }

  lemma UptoNothing(text: string, edits: seq<Edit>)
    ensures Upto(text, edits, 0) == ""
  {
  }

  lemma InsertedOne(e: Edit)
    ensures InsertedAt([e], e.at) == e.text
  {
    assert [e][..0] == [];
  }

  /** Between places that are not edited the text is the same text. */
  lemma SpanIsKept(text: string, edits: seq<Edit>, p: nat, q: nat)
    requires p < q <= |text| && forall e :: e in edits ==> !(p < e.at < q)
    ensures StartAt(text, edits, p) <= EndAt(text, edits, q) <= |Applied(text, edits)|
    ensures Applied(text, edits)[StartAt(text, edits, p)..EndAt(text, edits, q)] == text[p..q]
  {
    UneditedSpan(text, edits, p, q);
    StartPrefix(text, edits, q);
    var all, start, end := Applied(text, edits), StartAt(text, edits, p), EndAt(text, edits, q);
    assert all[..end] == Upto(text, edits, q);
    assert all[start..end] == all[..end][start..];
  }

  /** Every argument reads the same after the fix: the edits stand between arguments. */
  lemma ArgumentsAreKept(text: string, call: Call, i: nat)
    requires Valid(text, call) && i < |call.args|
    ensures var edits, arg := Edits(text, call), call.args[i];
            && StartAt(text, edits, arg.pos) <= EndAt(text, edits, arg.end) <= |Applied(text, edits)|
            && Applied(text, edits)[StartAt(text, edits, arg.pos)..EndAt(text, edits, arg.end)] == text[arg.pos..arg.end]
  {
    hide Edits, Applied, StartAt, EndAt, Line, Joined;
    EditsBreak(text, call);
    SpanIsKept(text, Edits(text, call), call.args[i].pos, call.args[i].end);
  }

  /** What stands between the last argument and the closing paren. */
  function GapOf(text: string, call: Call): string
    requires Valid(text, call) && call.args != []
  {
    text[LastEnd(call)..call.rparen]
  }

  /** From the end of the last argument on, the edits insert only after its dots. */
  predicate OnlyAtLastEnd(edits: seq<Edit>, call: Call)
    requires call.args != []
  {
    forall e :: e in edits && call.args[|call.args| - 1].end <= e.at <= call.rparen ==> e.at == LastEnd(call)
  }

  /** Such edits put their text in front of what stood before the closing paren. */
  lemma GapUnderEdits(text: string, edits: seq<Edit>, call: Call)
    requires Valid(text, call) && call.args != [] && OnlyAtLastEnd(edits, call)
    ensures Valid(Applied(text, edits), Moved(text, edits, call))
    ensures GapOf(Applied(text, edits), Moved(text, edits, call)) == InsertedAt(edits, LastEnd(call)) + GapOf(text, call)
  {
    hide Applied, InsertedAt, Upto;
    MovedIsValid(text, edits, call);
    var lastEnd, rparen := LastEnd(call), call.rparen;
    LastEndMoves(text, edits, call);
    StartPrefix(text, edits, rparen);
    var all, upto := Applied(text, edits), Upto(text, edits, lastEnd);
    if lastEnd == rparen {
      assert GapOf(text, call) == "";
    } else {
      UneditedSpan(text, edits, lastEnd, rparen);
      NothingInserted(edits, rparen);
    }
    var gap := InsertedAt(edits, lastEnd) + GapOf(text, call);
    assert all[..StartAt(text, edits, rparen)] == upto + gap;
    assert all[|upto|..StartAt(text, edits, rparen)] == (upto + gap)[|upto|..] == gap;
  }

  lemma LastEndMoves(text: string, edits: seq<Edit>, call: Call)
    requires Valid(text, call) && call.args != [] && OnlyAtLastEnd(edits, call)
    ensures LastEnd(Moved(text, edits, call)) == EndAt(text, edits, LastEnd(call))
  {
    hide InsertedAt, Upto;
    if call.ellipsis.Some? {
      UneditedSpan(text, edits, call.ellipsis.value, call.ellipsis.value + 3);
    }
  }

  lemma OwnEditsAtLastEnd(text: string, call: Call)
    requires Valid(text, call) && call.args != []
    ensures OnlyAtLastEnd(Edits(text, call), call)
  {
    hide Edits, Line, Joined;
    EditsBreak(text, call);
  }

  /** Up to the closing paren nothing else changes: a comma and a line break stand before the old text, when that text
      was on one line. */
  lemma GapAfterFix(text: string, call: Call)
    requires Valid(text, call) && call.args != []
    ensures var edits := Edits(text, call);
            && Valid(Applied(text, edits), Moved(text, edits, call))
            && GapOf(Applied(text, edits), Moved(text, edits, call))
               == (if Line(text, LastEnd(call)) == Line(text, call.rparen) then ",\n" else "") + GapOf(text, call)
  {
    hide Edits, Applied, Moved, Line, InsertedAt, GapOf;
    InsertedAtLastEnd(text, call);
    OwnEditsAtLastEnd(text, call);
    GapUnderEdits(text, Edits(text, call), call);
  }

  lemma InsertedAtLastEnd(text: string, call: Call)
    requires Valid(text, call) && call.args != []
    ensures InsertedAt(Edits(text, call), LastEnd(call))
         == if Line(text, LastEnd(call)) == Line(text, call.rparen) then ",\n" else ""
  {
    hide Line, Joined, ArgEdits;
    var n, lastEnd := |call.args|, LastEnd(call);
    var edits := ArgEdits(text, call, n);
    forall e | e in edits ensures e.at != lastEnd {
      ArgEditsAre(text, call, n, e);
    }
    NothingInserted(edits, lastEnd);
    if Line(text, lastEnd) == Line(text, call.rparen) {
      AppendedInsertion(edits, Edit(lastEnd, ",\n"));
    } else {
      assert Edits(text, call) == edits;
    }
  }

  lemma AppendedInsertion(edits: seq<Edit>, e: Edit)
    ensures InsertedAt(edits + [e], e.at) == InsertedAt(edits, e.at) + e.text
  {
    assert (edits + [e])[..|edits + [e]| - 1] == edits;
  }

  /** The length of a block comment at the start of s: up to its end mark, from i on. */
  function BlockCommentLength(s: string, i: nat): (n: nat)
    requires i <= |s|
    ensures i <= n <= |s|
    decreases |s| - i
  {
    if i == |s| then i
    else if StartsWith(s[i..], "*/") then i + 2
    else BlockCommentLength(s, i + 1)
  }

  /** The commas outside comments. */
  function Commas(s: string): nat
    decreases |s|
  {
    if s == "" then 0
    else if StartsWith(s, "/*") then Commas(s[BlockCommentLength(s, 2)..])
    else if StartsWith(s, "//") then CommasAfter(s, IndexIn(s, '\n'))
    else (if s[0] == ',' then 1 else 0) + Commas(s[1..])
  }

  function CommasAfter(s: string, n: nat): nat
    requires s != "" && n <= |s|
    decreases |s|, 0
  {
    if n == 0 then 0 else Commas(s[n..])
  }

  /** Outside comments every comma counts. */
  lemma {:induction false} CommasOfCode(code: string, rest: string)
    requires '/' !in code
    ensures Commas(code + rest) == multiset(code)[','] + Commas(rest)
  {
    hide Commas;
    if code == "" {
      assert code + rest == rest;
    } else {
      CommasOfCode(code[1..], rest);
      assert code[0] in code;
      CommasOfCharacter(code[0], code[1..] + rest);
      assert code + rest == [code[0]] + (code[1..] + rest);
      assert code == [code[0]] + code[1..];
    }
  }

  lemma CommasOfCharacter(c: char, rest: string)
    requires c != '/'
    ensures Commas([c] + rest) == (if c == ',' then 1 else 0) + Commas(rest)
  {
    var s := [c] + rest;
    assert s[1..] == rest && (|s| >= 2 ==> s[..2][0] == c);
  }

  lemma CommasBehind(s: string)
    ensures StartsWith(s, "//") ==> Commas(s) == Commas(s[IndexIn(s, '\n')..])
    ensures StartsWith(s, "/*") ==> Commas(s) == Commas(s[BlockCommentLength(s, 2)..])
    ensures Commas("") == 0
  {
    assert |s| >= 2 ==> s[..2] == [s[0], s[1]];
  }

  /** In a line comment none does, up to its line break, */
  lemma CommasOfLineComment(comment: string, rest: string)
    requires '\n' !in comment
    ensures Commas("//" + comment + "\n" + rest) == Commas(rest)
    ensures Commas("//" + comment) == 0
  {
    hide Commas;
    var s, tail := "//" + comment, "\n" + rest;
    assert s + tail == s + "\n" + rest && (s + tail)[..2] == "//" && s[..2] == "//";
    IndexBehind(s, tail, '\n');
    assert (s + tail)[|s|..] == tail;
    CommasBehind(s + tail);
    CommasOfCharacter('\n', rest);
    IndexBehind(s, "", '\n');
    assert s + "" == s && s[|s|..] == "";
    CommasBehind(s);
  }

  /** and none in a block comment. */
  lemma CommasOfBlockComment(comment: string, rest: string)
    requires forall k :: 0 <= k < |comment| ==> !StartsWith((comment + "*/")[k..], "*/")
    ensures Commas("/*" + comment + "*/" + rest) == Commas(rest)
  {
    hide Commas;
    var s := "/*" + comment + "*/" + rest;
    var end := |comment| + 2;
    assert s[..2] == "/*" && s[end..][..2] == "*/";
    forall k | 2 <= k < end ensures !StartsWith(s[k..], "*/") {
      assert s[k..][..2] == (comment + "*/")[k - 2..][..2];
    }
    BlockCommentEnds(s, 2, end);
    assert s[end + 2..] == rest;
    CommasBehind(s);
  }

  lemma {:induction false} BlockCommentEnds(s: string, i: nat, end: nat)
    requires i <= end <= |s| && StartsWith(s[end..], "*/") && forall k :: i <= k < end ==> !StartsWith(s[k..], "*/")
    ensures BlockCommentLength(s, i) == end + 2
    decreases end - i
  {
    if i < end {
      BlockCommentEnds(s, i + 1, end);
    }
  }

  /** What may stand between the last argument and the closing paren: one comma, or none on one line. */
  predicate IsSoundGap(gap: string) {
    Commas(gap) == 1 || (Commas(gap) == 0 && Newlines(gap) == 0)
  }

  lemma OneLineGap(text: string, call: Call)
    requires Valid(text, call) && call.args != []
    ensures Line(text, LastEnd(call)) == Line(text, call.rparen) <==> Newlines(GapOf(text, call)) == 0
  {
    var lastEnd := LastEnd(call);
    assert text[..call.rparen] == text[..lastEnd] + text[lastEnd..call.rparen];
    NewlinesConcat(text[..lastEnd], text[lastEnd..call.rparen]);
  }

  lemma OneMoreComma(gap: string)
    ensures Commas(",\n" + gap) == 1 + Commas(gap) && Newlines(",\n" + gap) > 0
  {
    assert (",\n" + gap)[1..] == "\n" + gap && ("\n" + gap)[1..] == gap;
    NewlinesConcat(",\n", gap);
    assert ",\n"[..1] == ",";
  }

  /** The fix leaves one comma after the last argument exactly when none stood there on the line of the closing paren,
      or exactly one did on separate lines. */
  lemma OneCommaIff(text: string, call: Call)
    requires Valid(text, call) && call.args != []
    ensures var edits := Edits(text, call);
            && Valid(Applied(text, edits), Moved(text, edits, call))
            && (Commas(GapOf(Applied(text, edits), Moved(text, edits, call))) == 1 <==>
                Commas(GapOf(text, call)) == if Line(text, LastEnd(call)) == Line(text, call.rparen) then 0 else 1)
  {
    hide Line, Applied, Edits, Moved, Commas, GapOf;
    GapAfterFix(text, call);
    OneMoreComma(GapOf(text, call));
    assert "" + GapOf(text, call) == GapOf(text, call);
  }

  lemma LinesOfExample(p: nat)
    requires p <= 8
    ensures Line("f(a,\nb,)", p) == if p <= 4 then 1 else 2
  {
    var text := "f(a,\nb,)";
    if p <= 4 {
      assert text[..p] == "f(a,"[..p];
      NoNewlines(text[..p]);
    } else {
      var rest := "b,)"[..p - 5];
      assert text[..p] == "f(a," + "\n" + rest;
      NewlinesConcat("f(a," + "\n", rest);
      NewlinesConcat("f(a,", "\n");
      NoNewlines("f(a,");
      NoNewlines(rest);
    }
  }

  /** A comma that already stands before the closing paren on its line becomes a second one, so that the fixed call does
      not parse. */
  lemma TrailingCommaExample()
    ensures var text, call := "f(a,\nb,)", Call(1, [Arg(2, 3), Arg(5, 6)], None, 7);
            && Valid(text, call) && Reported(text, call) && IsSoundGap(GapOf(text, call))
            && var edits := Edits(text, call);
               && Valid(Applied(text, edits), Moved(text, edits, call))
               && GapOf(Applied(text, edits), Moved(text, edits, call)) == ",\n" + ","
  {
    hide Line, Applied, Moved, Edits;
    var text, call := "f(a,\nb,)", Call(1, [Arg(2, 3), Arg(5, 6)], None, 7);
    LinesOfExample(1);
    LinesOfExample(2);
    LinesOfExample(6);
    LinesOfExample(7);
    assert GapOf(text, call) == ",";
    assert Commas(",") == 1 by { assert ","[1..] == ""; }
    GapAfterFix(text, call);
  }

  // ---- a whole file ----

  predicate Before(c: Call, d: Call) {
    c.rparen < d.lparen
  }

  predicate InArgument(c: Call, d: Call) {
    exists i :: 0 <= i < |d.args| && d.args[i].pos < c.lparen && c.rparen < d.args[i].end
  }

  /** The parens of two calls of one file: one after the other, or one pair inside an argument of the other call. */
  predicate Separate(c: Call, d: Call) {
    Before(c, d) || Before(d, c) || InArgument(c, d) || InArgument(d, c)
  }

  predicate ValidCalls(text: string, calls: seq<Call>) {
    && (forall i :: 0 <= i < |calls| ==> Valid(text, calls[i]))
    && forall i, j :: 0 <= i < j < |calls| ==> Separate(calls[i], calls[j])
  }

  datatype Diagnostic = Diagnostic(pos: nat, edits: seq<Edit>)

  /** The report on the first n calls of a file. */
  function Diagnostics(text: string, calls: seq<Call>, n: nat): seq<Diagnostic>
    requires ValidCalls(text, calls) && n <= |calls|
  {
    if n == 0 then []
    else
      var call := calls[n - 1];
      Diagnostics(text, calls, n - 1)
      + if Reported(text, call) then [Diagnostic(call.lparen, Edits(text, call))] else []
  }

  /** The analyzer on one file. A generated file is skipped. */
  method RunCallArgs(text: string, generated: bool, calls: seq<Call>) returns (reports: seq<Diagnostic>)
    requires ValidCalls(text, calls)
    ensures reports == if generated then [] else Diagnostics(text, calls, |calls|)
  {
    hide IsSingleLine, IsFullyExploded, Edits, Valid, Separate;
    reports := [];
    if generated {
      return;
    }
    for i := 0 to |calls|
      invariant reports == Diagnostics(text, calls, i)
    {
      var call := calls[i];
      if call.args != [] && !IsSingleLine(text, call) && !IsFullyExploded(text, call) {
        var edits := ExplodeEdits(text, call);
        reports := reports + [Diagnostic(call.lparen, edits)];
      }
    }
  }

  /** All suggested fixes together. */
  function FixEdits(reports: seq<Diagnostic>): seq<Edit> {
    if reports == [] then [] else FixEdits(reports[..|reports| - 1]) + reports[|reports| - 1].edits
  }

  function MovedCalls(text: string, edits: seq<Edit>, calls: seq<Call>): seq<Call>
    requires ValidCalls(text, calls)
  {
    seq(|calls|, i requires 0 <= i < |calls| => Moved(text, edits, calls[i]))
  }

  function EditsIfReported(text: string, call: Call): seq<Edit>
    requires Valid(text, call)
  {
    if Reported(text, call) then Edits(text, call) else []
  }

  lemma FixEditsNext(text: string, calls: seq<Call>, n: nat)
    requires ValidCalls(text, calls) && 0 < n <= |calls|
    ensures FixEdits(Diagnostics(text, calls, n)) == FixEdits(Diagnostics(text, calls, n - 1)) + EditsIfReported(text, calls[n - 1])
  {
    hide Edits, Separate, IsSingleLine, IsFullyExploded, Valid;
    var before, call := Diagnostics(text, calls, n - 1), calls[n - 1];
    if Reported(text, call) {
      var all := before + [Diagnostic(call.lparen, Edits(text, call))];
      assert Diagnostics(text, calls, n) == all && all[..|all| - 1] == before;
    } else {
      assert Diagnostics(text, calls, n) == before;
    }
  }

  lemma NoFixesYet(text: string, calls: seq<Call>)
    requires ValidCalls(text, calls)
    ensures FixEdits(Diagnostics(text, calls, 0)) == []
  {
  }

  lemma {:induction false} FixEditsAre(text: string, calls: seq<Call>, n: nat, e: Edit)
    requires ValidCalls(text, calls) && n <= |calls|
    ensures e in FixEdits(Diagnostics(text, calls, n)) <==>
            exists i :: 0 <= i < n && Reported(text, calls[i]) && e in Edits(text, calls[i])
  {
    hide Edits, Valid, Separate, Reported, FixEdits;
    if n == 0 {
      assert FixEdits([]) == [] by { NoFixesYet(text, calls); }
    } else {
      FixEditsAre(text, calls, n - 1, e);
      FixEditsNext(text, calls, n);
    }
  }

  /** A call in an argument of a one-line call is on that line too. */
  lemma InnerIsSingle(text: string, inner: Call, outer: Call)
    requires Valid(text, inner) && Valid(text, outer) && InArgument(inner, outer) && IsSingleLine(text, outer)
    ensures IsSingleLine(text, inner)
  {
    hide Line;
    LineMonotone(text, outer.lparen, inner.lparen);
    LineMonotone(text, inner.lparen, inner.rparen);
    LineMonotone(text, inner.rparen, outer.rparen);
  }

  /** No edit of a reported call falls between the parens of a one-line call. */
  lemma EditsMissSingle(text: string, single: Call, call: Call, e: Edit)
    requires Valid(text, single) && Valid(text, call) && (Separate(single, call) || Separate(call, single))
    requires IsSingleLine(text, single) && Reported(text, call) && e in Edits(text, call)
    ensures !(single.lparen < e.at <= single.rparen)
  {
    hide Line, Edits, IsSingleLine, IsFullyExploded, Joined;
    if InArgument(call, single) {
      InnerIsSingle(text, call, single);
    } else {
      EditsBreak(text, call);
    }
  }

  lemma SingleStaysSingle(text: string, edits: seq<Edit>, call: Call)
    requires Valid(text, call) && IsSingleLine(text, call)
    requires forall e :: e in edits ==> !(call.lparen < e.at <= call.rparen)
    ensures Valid(Applied(text, edits), Moved(text, edits, call))
    ensures IsSingleLine(Applied(text, edits), Moved(text, edits, call))
  {
    hide Line, Applied, StartAt, EndAt, Added;
    MovedIsValid(text, edits, call);
    LineOfStart(text, edits, call.lparen);
    LineOfStart(text, edits, call.rparen);
    NothingAdded(edits, call.lparen + 1, call.rparen + 1);
  }

  /** After all fixes of a file, none of its calls is reported, however they nest. */
  lemma FixedIsNotReported(text: string, calls: seq<Call>, i: nat)
    requires ValidCalls(text, calls) && i < |calls|
    ensures var edits := FixEdits(Diagnostics(text, calls, |calls|));
            && Valid(Applied(text, edits), Moved(text, edits, calls[i]))
            && !Reported(Applied(text, edits), Moved(text, edits, calls[i]))
  {
    hide Line, Applied, StartAt, EndAt, Edits, Joined, IsSingleLine, IsFullyExploded, Separate, Diagnostics, FixEdits;
    var edits, call := FixEdits(Diagnostics(text, calls, |calls|)), calls[i];
    MovedIsValid(text, edits, call);
    if call.args == [] {
    } else if IsSingleLine(text, call) {
      forall e | e in edits ensures !(call.lparen < e.at <= call.rparen) {
        FixEditsAre(text, calls, |calls|, e);
        var j :| 0 <= j < |calls| && Reported(text, calls[j]) && e in Edits(text, calls[j]);
        EditsMissSingle(text, call, calls[j], e);
      }
      SingleStaysSingle(text, edits, call);
    } else {
      if Reported(text, call) {
        forall e | e in Edits(text, call) ensures e in edits {
          FixEditsAre(text, calls, |calls|, e);
        }
        EditsBreakAll(text, call, edits);
      } else {
        ExplodedByGaps(text, call);
      }
      BrokenIsExploded(text, edits, call);
    }
  }

  lemma SeparateStays(text: string, edits: seq<Edit>, c: Call, d: Call)
    requires Valid(text, c) && Valid(text, d) && Separate(c, d)
    ensures Separate(Moved(text, edits, c), Moved(text, edits, d))
  {
    if Before(c, d) {
      StartsInOrder(text, edits, c.rparen, d.lparen);
    } else if Before(d, c) {
      StartsInOrder(text, edits, d.rparen, c.lparen);
    } else if InArgument(c, d) {
      InArgumentStays(text, edits, c, d);
    } else {
      InArgumentStays(text, edits, d, c);
    }
  }

  lemma InArgumentStays(text: string, edits: seq<Edit>, c: Call, d: Call)
    requires Valid(text, c) && Valid(text, d) && InArgument(c, d)
    ensures InArgument(Moved(text, edits, c), Moved(text, edits, d))
  {
    hide StartAt, EndAt;
    var i :| 0 <= i < |d.args| && d.args[i].pos < c.lparen && c.rparen < d.args[i].end;
    StartsInOrder(text, edits, d.args[i].pos, c.lparen);
    StartsInOrder(text, edits, c.rparen, d.args[i].end);
    var arg := Moved(text, edits, d).args[i];
    assert arg.pos < Moved(text, edits, c).lparen && Moved(text, edits, c).rparen < arg.end;
  }

  /** A run on the fixed file reports nothing, and so has no edit to make. */
  lemma FixThenCheck(text: string, calls: seq<Call>)
    requires ValidCalls(text, calls)
    ensures var edits := FixEdits(Diagnostics(text, calls, |calls|));
            var after, moved := Applied(text, edits), MovedCalls(text, edits, calls);
            ValidCalls(after, moved) && Diagnostics(after, moved, |moved|) == []
  {
    hide Applied, Moved, Diagnostics, FixEdits, Valid, Separate, Reported;
    var edits := FixEdits(Diagnostics(text, calls, |calls|));
    var after, moved := Applied(text, edits), MovedCalls(text, edits, calls);
    forall i | 0 <= i < |calls| ensures Valid(after, moved[i]) && !Reported(after, moved[i]) {
      FixedIsNotReported(text, calls, i);
    }
    forall i, j | 0 <= i < j < |calls| ensures Separate(moved[i], moved[j]) {
      SeparateStays(text, edits, calls[i], calls[j]);
    }
    NothingToReport(after, moved, |moved|);
  }

  lemma {:induction false} NothingToReport(text: string, calls: seq<Call>, n: nat)
    requires ValidCalls(text, calls) && n <= |calls|
    requires forall i :: 0 <= i < n ==> !Reported(text, calls[i])
    ensures Diagnostics(text, calls, n) == []
  {
    if n > 0 {
      NothingToReport(text, calls, n - 1);
    }
  }

  // ---- commas in a whole file ----

  /** An edit of one call stands outside the parens of any other call, or inside one of its arguments. */
  lemma EditPlaces(text: string, call: Call, other: Call, e: Edit)
    requires Valid(text, call) && Valid(text, other) && other.args != [] && e in Edits(text, other)
    requires Separate(call, other) || Separate(other, call)
    ensures e.at <= call.lparen || e.at > call.rparen
         || exists i :: 0 <= i < |call.args| && call.args[i].pos < e.at < call.args[i].end
  {
    hide Edits, Line, Joined;
    EditsBreak(text, other);
  }

  lemma OtherEditsAreElsewhere(text: string, call: Call, other: Call, e: Edit)
    requires Valid(text, call) && call.args != [] && Valid(text, other) && other.args != [] && e in Edits(text, other)
    requires Separate(call, other) || Separate(other, call)
    ensures !(call.args[|call.args| - 1].end <= e.at <= call.rparen)
  {
    hide Edits, Separate;
    EditPlaces(text, call, other, e);
  }

  lemma FixesAtLastEnd(text: string, calls: seq<Call>, n: nat, i: nat)
    requires ValidCalls(text, calls) && n <= |calls| && i < |calls| && calls[i].args != []
    ensures OnlyAtLastEnd(FixEdits(Diagnostics(text, calls, n)), calls[i])
  {
    hide Edits, Separate, Valid, IsSingleLine, IsFullyExploded, FixEdits, Diagnostics, LastEnd;
    var call, edits := calls[i], FixEdits(Diagnostics(text, calls, n));
    OwnEditsAtLastEnd(text, call);
    forall e | e in edits && call.args[|call.args| - 1].end <= e.at <= call.rparen ensures e.at == LastEnd(call) {
      FixEditsAre(text, calls, n, e);
      var j :| 0 <= j < n && Reported(text, calls[j]) && e in Edits(text, calls[j]);
      if j != i {
        OtherEditsAreElsewhere(text, call, calls[j], e);
      }
    }
  }

  lemma {:induction false} InsertedConcat(a: seq<Edit>, b: seq<Edit>, p: nat)
    ensures InsertedAt(a + b, p) == InsertedAt(a, p) + InsertedAt(b, p)
  {
    if b == [] {
      assert a + b == a;
    } else {
      var front, last := b[..|b| - 1], b[|b| - 1];
      var text := if last.at == p then last.text else "";
      InsertedConcat(a, front, p);
      assert (a + b)[..|a + b| - 1] == a + front && (a + b)[|a + b| - 1] == last;
      assert InsertedAt(a + b, p) == InsertedAt(a + front, p) + text && InsertedAt(b, p) == InsertedAt(front, p) + text;
    }
  }

  /** Of all fixes of a file, only a call's own edit stands after its last argument. */
  lemma {:induction false} InsertedByFixes(text: string, calls: seq<Call>, n: nat, i: nat)
    requires ValidCalls(text, calls) && n <= |calls| && i < |calls| && calls[i].args != []
    ensures InsertedAt(FixEdits(Diagnostics(text, calls, n)), LastEnd(calls[i]))
         == if i < n then InsertedAt(EditsIfReported(text, calls[i]), LastEnd(calls[i])) else ""
  {
    hide FixEdits, Diagnostics, EditsIfReported, Valid, Separate, InsertedAt, LastEnd;
    var p := LastEnd(calls[i]);
    if n == 0 {
      assert FixEdits(Diagnostics(text, calls, 0)) == [] by { NoFixesYet(text, calls); }
      NothingInserted([], p);
    } else {
      InsertedByFixes(text, calls, n - 1, i);
      FixEditsNext(text, calls, n);
      InsertedConcat(FixEdits(Diagnostics(text, calls, n - 1)), EditsIfReported(text, calls[n - 1]), p);
      if n - 1 != i {
        NothingOfOther(text, calls[i], calls[n - 1]);
      }
    }
  }

  lemma NothingOfOther(text: string, call: Call, other: Call)
    requires Valid(text, call) && call.args != [] && Valid(text, other)
    requires Separate(call, other) || Separate(other, call)
    ensures InsertedAt(EditsIfReported(text, other), LastEnd(call)) == ""
  {
    hide Edits, Separate, InsertedAt, IsSingleLine, IsFullyExploded;
    forall e | e in EditsIfReported(text, other) ensures e.at != LastEnd(call) {
      OtherEditsAreElsewhere(text, call, other, e);
    }
    NothingInserted(EditsIfReported(text, other), LastEnd(call));
  }

  /** After all fixes of a file, a comma and a line break were put after the last argument of each reported call whose
      closing paren followed on that line, and nothing else before any closing paren. */
  lemma GapAfterFixes(text: string, calls: seq<Call>, i: nat)
    requires ValidCalls(text, calls) && i < |calls| && calls[i].args != []
    ensures var edits, call := FixEdits(Diagnostics(text, calls, |calls|)), calls[i];
            && Valid(Applied(text, edits), Moved(text, edits, call))
            && GapOf(Applied(text, edits), Moved(text, edits, call))
               == (if Reported(text, call) && Newlines(GapOf(text, call)) == 0 then ",\n" else "") + GapOf(text, call)
  {
    hide Edits, Applied, Moved, Line, InsertedAt, GapOf, Separate, Diagnostics, FixEdits, Reported, OnlyAtLastEnd, LastEnd;
    var edits, call := FixEdits(Diagnostics(text, calls, |calls|)), calls[i];
    FixesAtLastEnd(text, calls, |calls|, i);
    GapUnderEdits(text, edits, call);
    InsertedByFixes(text, calls, |calls|, i);
    InsertedAtLastEnd(text, call);
    OneLineGap(text, call);
    assert InsertedAt([], LastEnd(call)) == "" by { NothingInserted([], LastEnd(call)); }
  }

  predicate SoundCalls(text: string, calls: seq<Call>)
    requires ValidCalls(text, calls)
  {
    forall i :: 0 <= i < |calls| && calls[i].args != [] ==> IsSoundGap(GapOf(text, calls[i]))
  }

  /** No reported call has a comma before its closing paren on the line of its last argument. */
  predicate NoTrailingCommas(text: string, calls: seq<Call>)
    requires ValidCalls(text, calls)
  {
    forall i :: 0 <= i < |calls| && Reported(text, calls[i]) && Newlines(GapOf(text, calls[i])) == 0
                ==> Commas(GapOf(text, calls[i])) == 0
  }

  /** The commas of a file are in order after all its fixes exactly when no reported call has a trailing comma. */
  lemma SoundAfterFixesIff(text: string, calls: seq<Call>)
    requires ValidCalls(text, calls) && SoundCalls(text, calls)
    ensures var edits := FixEdits(Diagnostics(text, calls, |calls|));
            var after, moved := Applied(text, edits), MovedCalls(text, edits, calls);
            ValidCalls(after, moved) && (SoundCalls(after, moved) <==> NoTrailingCommas(text, calls))
  {
    hide Applied, Moved, Diagnostics, FixEdits, Valid, Separate, Reported, GapOf, Commas, Newlines;
    var edits := FixEdits(Diagnostics(text, calls, |calls|));
    var after, moved := Applied(text, edits), MovedCalls(text, edits, calls);
    FixThenCheck(text, calls);
    forall i | 0 <= i < |calls|
      ensures moved[i].args != [] <==> calls[i].args != []
      ensures calls[i].args != [] ==>
        (IsSoundGap(GapOf(after, moved[i])) <==>
         (Reported(text, calls[i]) && Newlines(GapOf(text, calls[i])) == 0 ==> Commas(GapOf(text, calls[i])) == 0))
    {
      MovedArgs(text, edits, calls[i]);
      if calls[i].args != [] {
        GapAfterFixes(text, calls, i);
        OneMoreComma(GapOf(text, calls[i]));
        assert "" + GapOf(text, calls[i]) == GapOf(text, calls[i]);
      }
    }
    assert forall i :: 0 <= i < |calls| && Reported(text, calls[i]) ==> calls[i].args != [] by {
      ReportedHasArgs(text, calls);
    }
  }

  lemma MovedArgs(text: string, edits: seq<Edit>, call: Call)
    requires Valid(text, call)
    ensures Moved(text, edits, call).args == [] <==> call.args == []
  {
  }

  lemma ReportedHasArgs(text: string, calls: seq<Call>)
    requires ValidCalls(text, calls)
    ensures forall i :: 0 <= i < |calls| && Reported(text, calls[i]) ==> calls[i].args != []
  {
    hide IsSingleLine, IsFullyExploded, Separate;
  }
}
