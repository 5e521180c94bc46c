/** Operations on strings that several of the modelled programs use. */
module Text {

  predicate IsDigit(c: char) {
    '0' <= c <= '9'
  }

  predicate StartsWith(s: string, part: string) {
    |s| >= |part| && s[..|part|] == part
  }

  /** The position of the last `c` in s, or -1. */
  function LastIndex(s: string, c: char): (i: int)
    ensures -1 <= i < |s|
    ensures i >= 0 ==> s[i] == c
    ensures forall k :: i < k < |s| ==> s[k] != c
  {
    if s == [] then -1
    else if s[|s| - 1] == c then |s| - 1
    else LastIndex(s[..|s| - 1], c)
  }

  /** LastIndex is the one position with these properties. */
  lemma LastIndexIs(s: string, c: char, i: nat)
    requires i < |s| && s[i] == c && forall k :: i < k < |s| ==> s[k] != c
    ensures LastIndex(s, c) == i
  {
  }

  /** The first position of c, or |s|. */
  function IndexIn(s: string, c: char): (i: nat)
    ensures i <= |s|
    ensures i < |s| ==> s[i] == c
    ensures c !in s[..i]
    ensures i == |s| ==> c !in s
  {
    if s == [] || s[0] == c then 0 else 1 + IndexIn(s[1..], c)
  }

  /** A character is looked for behind a part that does not have it. */
  lemma {:induction false} IndexBehind(a: string, b: string, c: char)
    requires c !in a
    ensures IndexIn(a + b, c) == |a| + IndexIn(b, c)
  {
    if a == [] {
      assert a + b == b;
    } else {
      assert a[0] in a && (a + b)[1..] == a[1..] + b;
      IndexBehind(a[1..], b, c);
    }
  }
}
