/** The error-message normaliser, in its Go and its TypeScript form. A message is a sequence of code
    units: bytes on the Go side, UTF-16 units on the TypeScript side. */
module Normalise {

  type Units = seq<nat>

  predicate IsDigit(c: nat) {
    48 <= c <= 57
  }

  predicate IsLetter(c: nat) {
    65 <= c <= 90 || 97 <= c <= 122
  }

  predicate IsAlnum(c: nat) {
    IsDigit(c) || IsLetter(c)
  }

  predicate AllAlnum(s: Units) {
    forall k :: 0 <= k < |s| ==> IsAlnum(s[k])
  }

  predicate HasDigit(s: Units) {
    exists k :: 0 <= k < |s| && IsDigit(s[k])
  }

  predicate HasLetter(s: Units) {
    exists k :: 0 <= k < |s| && IsLetter(s[k])
  }

  /** "<n>" and "<x>". */
  const NUMBER: Units := [60, 110, 62]
  const MIXED: Units := [60, 120, 62]

  /** What a maximal run of letters and digits becomes. */
  function Class(run: Units): Units {
    if !HasLetter(run) then NUMBER
    else if HasDigit(run) && |run| >= 4 then MIXED
    else run
  }

  function RunLength(msg: Units): (n: nat)
    ensures n <= |msg| && AllAlnum(msg[..n])
    ensures n < |msg| ==> !IsAlnum(msg[n])
    ensures msg != [] && IsAlnum(msg[0]) ==> n > 0
  {
    if msg == [] || !IsAlnum(msg[0]) then 0 else 1 + RunLength(msg[1..])
  }

  lemma RunLengthIs(msg: Units, n: nat)
    requires n <= |msg| && AllAlnum(msg[..n]) && (n < |msg| ==> !IsAlnum(msg[n]))
    ensures RunLength(msg) == n
  {
    var m := RunLength(msg);
    assert forall k :: 0 <= k < n ==> msg[..n][k] == msg[k];
    assert forall k :: 0 <= k < m ==> msg[..m][k] == msg[k];
  }

  /** Every maximal run replaced by its class, everything else kept. */
  function Normal(msg: Units): Units
    decreases |msg|
  {
    if msg == [] then []
    else if !IsAlnum(msg[0]) then [msg[0]] + Normal(msg[1..])
    else
      var n := RunLength(msg);
      Class(msg[..n]) + Normal(msg[n..])
  }

  // ---- the Go form: two indices and two counters ----

  method NormaliseGo(msg: Units) returns (b: Units)
    ensures b == Normal(msg)
  {
    hide Class, HasDigit, HasLetter, IsAlnum;
    b := [];
    var i := 0;
    assert msg[0..] == msg;
    while i < |msg|
      invariant 0 <= i <= |msg|
      invariant b + Normal(msg[i..]) == Normal(msg)
    {
      if !IsAlnum(msg[i]) {
        PlainUnit(msg, i, b);
        b := b + [msg[i]];
        i := i + 1;
        continue;
      }
      var j := i;
      var digits, letters := 0, 0;
      EmptyRun(msg[i..i]);
      while j < |msg| && IsAlnum(msg[j])
        invariant i <= j <= |msg|
        invariant AllAlnum(msg[i..j])
        invariant 0 <= digits && (digits > 0 <==> HasDigit(msg[i..j]))
        invariant 0 <= letters && (letters > 0 <==> HasLetter(msg[i..j]))
      {
        RunGrows(msg, i, j);
        if 48 <= msg[j] <= 57 {
          digits := digits + 1;
        } else {
          letters := letters + 1;
        }
        j := j + 1;
      }
      var run := msg[i..j];
      TakenRun(msg, i, j, b);
      ClassOf(run);
      if letters == 0 {
        b := b + NUMBER;
      } else if digits > 0 && |run| >= 4 {
        b := b + MIXED;
      } else {
        b := b + run;
      }
      i := j;
    }
    assert msg[i..] == [] && b + [] == b;
  }

  lemma ClassOf(run: Units)
    ensures Class(run) == if !HasLetter(run) then NUMBER else if HasDigit(run) && |run| >= 4 then MIXED else run
  {
  }

  lemma EmptyRun(run: Units)
    requires run == []
    ensures AllAlnum(run) && !HasDigit(run) && !HasLetter(run)
  {
  }

  lemma RunGrows(msg: Units, i: nat, j: nat)
    requires i <= j < |msg| && AllAlnum(msg[i..j]) && IsAlnum(msg[j])
    ensures AllAlnum(msg[i..j + 1])
    ensures HasDigit(msg[i..j + 1]) <==> HasDigit(msg[i..j]) || 48 <= msg[j] <= 57
    ensures HasLetter(msg[i..j + 1]) <==> HasLetter(msg[i..j]) || !(48 <= msg[j] <= 57)
  {
    var run, longer := msg[i..j], msg[i..j + 1];
    assert longer == run + [msg[j]];
    if HasDigit(run) {
      var k :| 0 <= k < |run| && IsDigit(run[k]);
      assert IsDigit(longer[k]);
    }
    if HasLetter(run) {
      var k :| 0 <= k < |run| && IsLetter(run[k]);
      assert IsLetter(longer[k]);
    }
    assert longer[|run|] == msg[j];
  }

  lemma PlainUnit(msg: Units, i: nat, b: Units)
    requires i < |msg| && !IsAlnum(msg[i])
    ensures b + Normal(msg[i..]) == (b + [msg[i]]) + Normal(msg[i + 1..])
  {
    assert msg[i..][1..] == msg[i + 1..];
  }

  lemma TakenRun(msg: Units, i: nat, j: nat, b: Units)
    requires i <= j <= |msg| && i < |msg| && IsAlnum(msg[i]) && AllAlnum(msg[i..j]) && (j < |msg| ==> !IsAlnum(msg[j]))
    ensures i < j
    ensures b + Normal(msg[i..]) == (b + Class(msg[i..j])) + Normal(msg[j..])
  {
    hide Class;
    var rest := msg[i..];
    assert rest[..j - i] == msg[i..j] && rest[j - i..] == msg[j..];
    RunLengthIs(rest, j - i);
  }

  // ---- the TypeScript form: one function consumes a run ----

  method NormaliseTs(message: Units) returns (out: Units)
    ensures out == Normal(message)
  {
    hide Class, HasDigit, HasLetter, IsAlnum;
    out := [];
    var i := 0;
    assert message[0..] == message;
    while i < |message|
      invariant 0 <= i <= |message|
      invariant out + Normal(message[i..]) == Normal(message)
    {
      if IsAlnum(message[i]) {
        var end, piece := ConsumeRun(message, i);
        TakenRun(message, i, end, out);
        out := out + piece;
        i := end;
      } else {
        PlainUnit(message, i, out);
        out := out + [message[i]];
        i := i + 1;
      }
    }
    assert message[i..] == [] && out + [] == out;
  }

  method ConsumeRun(message: Units, start: nat) returns (j: nat, piece: Units)
    requires start < |message|
    ensures start <= j <= |message| && AllAlnum(message[start..j]) && (j < |message| ==> !IsAlnum(message[j]))
    ensures piece == Class(message[start..j])
  {
    hide Class, HasDigit, HasLetter, IsAlnum;
    j := start;
    var digits, letters := 0, 0;
    EmptyRun(message[start..start]);
    while j < |message| && IsAlnum(message[j])
      invariant start <= j <= |message|
      invariant AllAlnum(message[start..j])
      invariant 0 <= digits && (digits > 0 <==> HasDigit(message[start..j]))
      invariant 0 <= letters && (letters > 0 <==> HasLetter(message[start..j]))
    {
      RunGrows(message, start, j);
      var c := message[j];
      if 48 <= c && c <= 57 {
        digits := digits + 1;
      } else {
        letters := letters + 1;
      }
      j := j + 1;
    }
    var run := message[start..j];
    ClassOf(run);
    piece := if letters == 0 then NUMBER else if digits > 0 && |run| >= 4 then MIXED else run;
  }

  // ---- composition ----

  predicate EndsRun(p: Units) {
    p == [] || !IsAlnum(p[|p| - 1])
  }

  predicate StartsRun(q: Units) {
    q == [] || !IsAlnum(q[0])
  }

  /** A message is normalised piece by piece at any place no run crosses. */
  lemma {:induction false} NormalConcat(p: Units, q: Units)
    requires EndsRun(p) || StartsRun(q)
    ensures Normal(p + q) == Normal(p) + Normal(q)
    decreases |p|
  {
    hide Class, IsAlnum, RunLength, Normal;
    if p == [] {
      assert p + q == q && Normal([]) == [] by { NormalOfNothing(); }
    } else if !IsAlnum(p[0]) {
      NormalConcat(p[1..], q);
      OtherInFront(p);
      OtherInFront(p + q);
      assert (p + q)[1..] == p[1..] + q;
    } else {
      var n := RunLength(p);
      RunInFront(p, q);
      assert (p + q)[..n] == p[..n] && (p + q)[n..] == p[n..] + q;
      NormalConcat(p[n..], q);
      HeadRun(p);
      HeadRun(p + q);
      var run, rest, last := Class(p[..n]), Normal(p[n..]), Normal(q);
      assert run + (rest + last) == run + rest + last;
    }
  }

  lemma NormalOfNothing()
    ensures Normal([]) == []
  {
  }

  lemma OtherInFront(msg: Units)
    requires msg != [] && !IsAlnum(msg[0])
    ensures Normal(msg) == [msg[0]] + Normal(msg[1..])
  {
  }

  lemma HeadRun(msg: Units)
    requires msg != [] && IsAlnum(msg[0])
    ensures Normal(msg) == Class(msg[..RunLength(msg)]) + Normal(msg[RunLength(msg)..])
  {
  }

  lemma RunInFront(p: Units, q: Units)
    requires p != [] && IsAlnum(p[0]) && (EndsRun(p) || StartsRun(q))
    ensures RunLength(p + q) == RunLength(p) > 0
    ensures EndsRun(p[RunLength(p)..]) || StartsRun(q)
  {
    hide IsAlnum;
    var s, n := p + q, RunLength(p);
    assert s[..n] == p[..n];
    assert n < |s| ==> s[n] == if n < |p| then p[n] else q[n - |p|];
    RunLengthIs(s, n);
  }

  lemma NormalOfRun(run: Units)
    requires run != [] && AllAlnum(run)
    ensures Normal(run) == Class(run)
  {
    hide Class;
    assert run[..|run|] == run && run[|run|..] == [];
    RunLengthIs(run, |run|);
    assert Normal(run) == Class(run) + Normal([]);
  }

  /** A maximal run in its context. */
  lemma NormalAround(p: Units, run: Units, q: Units)
    requires EndsRun(p) && run != [] && AllAlnum(run) && StartsRun(q)
    ensures Normal(p + run + q) == Normal(p) + Class(run) + Normal(q)
  {
    hide Class, IsAlnum, Normal;
    NormalConcat(p, run);
    NormalConcat(p + run, q);
    NormalOfRun(run);
  }

  // ---- laws ----

  /** The units of an ASCII text. */
  function UnitsOf(text: string): Units {
    seq(|text|, k requires 0 <= k < |text| => text[k] as nat)
  }

  predicate IsWordCharacter(c: char) {
    '0' <= c <= '9' || 'A' <= c <= 'Z' || 'a' <= c <= 'z'
  }

  lemma WordCharacters(c: char)
    ensures IsAlnum(c as nat) <==> IsWordCharacter(c)
    ensures IsDigit(c as nat) <==> '0' <= c <= '9'
    ensures IsAlnum(c as nat) ==> (IsLetter(c as nat) <==> !('0' <= c <= '9'))
  {
  }

  /** Between characters of other kinds, digits become `<n>`, a run of four or more with a digit in it becomes `<x>`, and
      every other run stays. */
  lemma WordBecomes(p: Units, word: string, q: Units)
    requires word != "" && (forall k :: 0 <= k < |word| ==> IsWordCharacter(word[k])) && EndsRun(p) && StartsRun(q)
    ensures Normal(p + UnitsOf(word) + q) == Normal(p) + UnitsOf(
        if forall k :: 0 <= k < |word| ==> '0' <= word[k] <= '9' then "<n>"
        else if |word| >= 4 && exists k :: 0 <= k < |word| && '0' <= word[k] <= '9' then "<x>"
        else word) + Normal(q)
  {
    hide Normal, Class, IsAlnum, IsDigit, IsLetter, IsWordCharacter;
    var run := UnitsOf(word);
    forall k | 0 <= k < |run|
      ensures IsAlnum(run[k]) && (IsDigit(run[k]) <==> '0' <= word[k] <= '9') && (IsLetter(run[k]) <==> !IsDigit(run[k]))
    {
      WordCharacters(word[k]);
    }
    NormalAround(p, run, q);
    ClassOf(run);
    assert UnitsOf("<n>") == NUMBER && UnitsOf("<x>") == MIXED;
  }

  /** What belongs to no run stays. */
  lemma OtherCharactersStay(p: Units, c: nat, q: Units)
    requires !(c < 128 && IsWordCharacter(c as char))
    ensures Normal(p + [c] + q) == Normal(p) + [c] + Normal(q)
  {
    hide Normal, IsWordCharacter;
    assert !IsAlnum(c) by {
      if c < 128 {
        WordCharacters(c as char);
      }
    }
    NormalConcat(p, [c]);
    NormalConcat(p + [c], q);
    NormalOfPlain([c]);
  }

  lemma NormalStartsRun(q: Units)
    requires StartsRun(q)
    ensures StartsRun(Normal(q))
  {
  }

  lemma MarkersAreNormal()
    ensures Normal(NUMBER) == NUMBER && Normal(MIXED) == MIXED && EndsRun(NUMBER) && EndsRun(MIXED)
  {
    hide Normal;
    MarkerIsNormal(110);
    MarkerIsNormal(120);
  }

  lemma MarkerIsNormal(c: nat)
    requires IsLetter(c)
    ensures Normal([60, c, 62]) == [60, c, 62]
  {
    assert HasLetter([c]) by { assert IsLetter([c][0]); }
    NormalAround([60], [c], [62]);
    assert [60] + [c] + [62] == [60, c, 62];
    assert Normal([60]) == [60] + Normal([]) && Normal([62]) == [62] + Normal([]) by {
      assert [60][1..] == [] && [62][1..] == [];
    }
    assert Class([c]) == [c];
  }

  /** Normalising again changes nothing. */
  lemma {:induction false} NormalIsIdempotent(msg: Units)
    ensures Normal(Normal(msg)) == Normal(msg)
    decreases |msg|
  {
    hide Class, IsAlnum;
    if msg == [] {
    } else if !IsAlnum(msg[0]) {
      NormalIsIdempotent(msg[1..]);
      var out := Normal(msg);
      assert out[1..] == Normal(msg[1..]);
    } else {
      var n := RunLength(msg);
      var run, rest := msg[..n], msg[n..];
      NormalIsIdempotent(rest);
      NormalStartsRun(rest);
      MarkersAreNormal();
      NormalOfRun(run);
      ClassOf(run);
      NormalConcat(Class(run), Normal(rest));
    }
  }

  predicate IsMaximalRun(msg: Units, i: nat, j: nat) {
    && i < j <= |msg| && AllAlnum(msg[i..j])
    && (i > 0 ==> !IsAlnum(msg[i - 1])) && (j < |msg| ==> !IsAlnum(msg[j]))
  }

  lemma ClassKeeps(run: Units)
    requires run != [] && AllAlnum(run)
    ensures Class(run) == run <==> HasLetter(run) && (HasDigit(run) ==> |run| < 4)
  {
    assert IsAlnum(run[0]) && !IsAlnum(NUMBER[0]) && !IsAlnum(MIXED[0]);
  }

  lemma {:induction false} FixedIsSettled(msg: Units, i: nat, j: nat)
    requires Normal(msg) == msg && IsMaximalRun(msg, i, j)
    ensures Class(msg[i..j]) == msg[i..j]
    decreases |msg|
  {
    hide Class, IsAlnum, IsMaximalRun, Normal, RunLength;
    RunBoundary(msg, i, j);
    FixedParts(msg);
    if !IsAlnum(msg[0]) {
      ShiftedRun(msg, 1, i, j);
      FixedIsSettled(msg[1..], i - 1, j - 1);
    } else if i > 0 {
      var n := RunLength(msg);
      ShiftedRun(msg, n, i, j);
      FixedIsSettled(msg[n..], i - n, j - n);
    }
  }

  lemma FixedParts(msg: Units)
    requires Normal(msg) == msg && msg != []
    ensures !IsAlnum(msg[0]) ==> Normal(msg[1..]) == msg[1..]
    ensures IsAlnum(msg[0]) ==> Class(msg[..RunLength(msg)]) == msg[..RunLength(msg)]
    ensures IsAlnum(msg[0]) ==> Normal(msg[RunLength(msg)..]) == msg[RunLength(msg)..]
  {
    hide Class, IsAlnum, RunLength;
    if !IsAlnum(msg[0]) {
      assert Normal(msg)[1..] == Normal(msg[1..]);
    } else {
      var n := RunLength(msg);
      RunKeptOrMarked(msg[..n], msg[n..], msg);
    }
  }

  /** A maximal run is the run at the head, or lies behind it. */
  lemma RunBoundary(msg: Units, i: nat, j: nat)
    requires IsMaximalRun(msg, i, j)
    ensures i < j <= |msg|
    ensures !IsAlnum(msg[0]) ==> i >= 1
    ensures i >= RunLength(msg) || (i == 0 && j == RunLength(msg) && msg[i..j] == msg[..RunLength(msg)])
  {
    hide IsAlnum;
    var n := RunLength(msg);
    assert forall k :: 0 <= k < n ==> msg[..n][k] == msg[k];
    assert forall k :: i <= k < j ==> msg[i..j][k - i] == msg[k];
    if i == 0 {
      assert msg[..j] == msg[i..j];
      RunLengthIs(msg, j);
    }
  }

  lemma ShiftedRun(msg: Units, n: nat, i: nat, j: nat)
    requires IsMaximalRun(msg, i, j) && n <= i
    ensures i < j <= |msg| && IsMaximalRun(msg[n..], i - n, j - n) && msg[n..][i - n..j - n] == msg[i..j]
  {
    hide IsAlnum;
    var rest := msg[n..];
    assert rest[i - n..j - n] == msg[i..j];
    assert forall k :: n <= k < |msg| ==> rest[k - n] == msg[k];
    assert i - n > 0 ==> rest[i - n - 1] == msg[i - 1];
  }

  lemma RunKeptOrMarked(run: Units, rest: Units, msg: Units)
    requires run != [] && AllAlnum(run) && msg == run + rest
    requires Class(run) + Normal(rest) == msg
    ensures Class(run) == run && Normal(rest) == rest
  {
    hide Normal;
    var out := Class(run) + Normal(rest);
    assert out[0] == run[0] && IsAlnum(run[0]) && !IsAlnum(60);
    assert out[|run|..] == Normal(rest) && msg[|run|..] == rest;
  }

  /** The result holds digits only in short mixed runs. */
  lemma NormalLeavesFewDigits(msg: Units, i: nat, j: nat)
    requires IsMaximalRun(Normal(msg), i, j) && HasDigit(Normal(msg)[i..j])
    ensures HasLetter(Normal(msg)[i..j]) && j - i < 4
  {
    hide Normal, HasLetter, HasDigit;
    var out := Normal(msg);
    NormalIsIdempotent(msg);
    FixedIsSettled(out, i, j);
    ClassKeeps(out[i..j]);
  }

  predicate IsNumber(run: Units) {
    !HasLetter(run)
  }

  predicate IsLongMixed(run: Units) {
    HasLetter(run) && HasDigit(run) && |run| >= 4
  }

  /** Two messages that differ in one maximal run merge exactly when both runs are numbers, or both
      are mixed and at least four long, or they are the same run. */
  lemma MergesExactly(p: Units, r: Units, s: Units, q: Units)
    requires EndsRun(p) && StartsRun(q)
    requires r != [] && AllAlnum(r) && s != [] && AllAlnum(s)
    ensures Normal(p + r + q) == Normal(p + s + q)
       <==> (IsNumber(r) && IsNumber(s)) || (IsLongMixed(r) && IsLongMixed(s)) || r == s
  {
    hide Normal, HasLetter, HasDigit;
    NormalAround(p, r, q);
    NormalAround(p, s, q);
    SameMiddle(Normal(p), Class(r), Class(s), Normal(q));
    ClassesDiffer(r);
    ClassesDiffer(s);
  }

  lemma SameMiddle(a: Units, x: Units, y: Units, b: Units)
    ensures a + x + b == a + y + b <==> x == y
  {
    if a + x + b == a + y + b {
      assert |x| == |y|;
      assert (a + x + b)[|a|..|a| + |x|] == x && (a + y + b)[|a|..|a| + |y|] == y;
    }
  }

  lemma ClassesDiffer(run: Units)
    requires run != [] && AllAlnum(run)
    ensures run != NUMBER && run != MIXED && NUMBER != MIXED
  {
    assert IsAlnum(run[0]) && !IsAlnum(60) && NUMBER[1] != MIXED[1];
  }

  // ---- both forms on one text ----

  type Encoding = nat -> Units

  /** An encoding that keeps ASCII as it is and uses other units for everything else, as UTF-8 and
      UTF-16 do. */
  ghost predicate KeepsAscii(enc: Encoding) {
    forall c: nat :: if c < 128 then enc(c) == [c] else enc(c) != [] && forall k :: 0 <= k < |enc(c)| ==> enc(c)[k] >= 128
  }

  function EncodeAll(enc: Encoding, text: Units): Units {
    if text == [] then [] else enc(text[0]) + EncodeAll(enc, text[1..])
  }

  lemma {:induction false} EncodeConcat(enc: Encoding, a: Units, b: Units)
    ensures EncodeAll(enc, a + b) == EncodeAll(enc, a) + EncodeAll(enc, b)
  {
    if a == [] {
      assert a + b == b;
    } else {
      assert (a + b)[1..] == a[1..] + b;
      EncodeConcat(enc, a[1..], b);
      assert enc(a[0]) + (EncodeAll(enc, a[1..]) + EncodeAll(enc, b)) == (enc(a[0]) + EncodeAll(enc, a[1..])) + EncodeAll(enc, b);
    }
  }

  lemma {:induction false} EncodeAscii(enc: Encoding, a: Units)
    requires KeepsAscii(enc) && forall k :: 0 <= k < |a| ==> a[k] < 128
    ensures EncodeAll(enc, a) == a
  {
    if a != [] {
      EncodeAscii(enc, a[1..]);
      assert a == [a[0]] + a[1..];
    }
  }

  lemma {:induction false} NormalOfPlain(s: Units)
    requires forall k :: 0 <= k < |s| ==> !IsAlnum(s[k])
    ensures Normal(s) == s
  {
    if s != [] {
      NormalOfPlain(s[1..]);
    }
  }

  lemma ClassIsAscii(run: Units)
    requires AllAlnum(run)
    ensures forall k :: 0 <= k < |Class(run)| ==> Class(run)[k] < 128
  {
  }

  lemma EncodedStartsRun(enc: Encoding, rest: Units)
    requires KeepsAscii(enc) && StartsRun(rest)
    ensures StartsRun(EncodeAll(enc, rest))
  {
    if rest != [] {
      assert rest[0] < 128 || enc(rest[0])[0] >= 128;
    }
  }

  /** Normalising the encoded text is encoding the normalised text, in every such encoding. So the
      Go and the TypeScript result are the same text, whatever characters the message holds. */
  lemma {:induction false} NormalCommutesWithEncoding(enc: Encoding, text: Units)
    requires KeepsAscii(enc)
    ensures Normal(EncodeAll(enc, text)) == EncodeAll(enc, Normal(text))
    decreases |text|
  {
    hide Class;
    if text == [] {
    } else if !IsAlnum(text[0]) {
      var c, rest := text[0], text[1..];
      NormalCommutesWithEncoding(enc, rest);
      assert forall k :: 0 <= k < |enc(c)| ==> !IsAlnum(enc(c)[k]) by {
        assert c < 128 ==> enc(c) == [c];
      }
      NormalOfPlain(enc(c));
      assert enc(c) != [];
      NormalConcat(enc(c), EncodeAll(enc, rest));
      assert ([c] + Normal(rest))[1..] == Normal(rest);
    } else {
      var n := RunLength(text);
      var run, rest := text[..n], text[n..];
      NormalCommutesWithEncoding(enc, rest);
      assert text == run + rest;
      EncodeConcat(enc, run, rest);
      EncodeAscii(enc, run);
      EncodedStartsRun(enc, rest);
      NormalConcat(run, EncodeAll(enc, rest));
      NormalOfRun(run);
      EncodeConcat(enc, Class(run), Normal(rest));
      ClassIsAscii(run);
      EncodeAscii(enc, Class(run));
    }
  }
}
