/** Strings in byte order, and sets of names listed in that order. */
module Names {

  function Less(a: string, b: string): bool {
    if b == [] then false
    else if a == [] then true
    else if a[0] != b[0] then a[0] < b[0]
    else Less(a[1..], b[1..])
  }

  lemma {:induction false} LessIsStrict(a: string)
    ensures !Less(a, a)
  {
    if a != [] {
      LessIsStrict(a[1..]);
    }
  }

  lemma {:induction false} LessIsTotal(a: string, b: string)
    ensures Less(a, b) || Less(b, a) || a == b
  {
    if a != [] && b != [] && a[0] == b[0] {
      LessIsTotal(a[1..], b[1..]);
      assert a == [a[0]] + a[1..] && b == [b[0]] + b[1..];
    }
  }

  lemma {:induction false} LessIsTransitive(a: string, b: string, c: string)
    requires Less(a, b) && Less(b, c)
    ensures Less(a, c)
  {
    if a != [] && a[0] == b[0] == c[0] {
      LessIsTransitive(a[1..], b[1..], c[1..]);
    }
  }

  predicate IsFirst(names: set<string>, m: string) {
    m in names && forall x :: x in names ==> x == m || Less(m, x)
  }

  lemma {:induction false} FirstExists(names: set<string>) returns (m: string)
    requires names != {}
    ensures IsFirst(names, m)
  {
    var x :| x in names;
    var rest := names - {x};
    if rest == {} {
      assert names == {x};
      m := x;
    } else {
      m := FirstExists(rest);
      LessIsTotal(x, m);
      if Less(x, m) {
        forall y | y in names ensures y == x || Less(x, y) {
          if y != x && y != m {
            LessIsTransitive(x, m, y);
          }
        }
        m := x;
      }
    }
  }

  lemma FirstIsUnique(names: set<string>, a: string, b: string)
    requires IsFirst(names, a) && IsFirst(names, b)
    ensures a == b
  {
    if a != b {
      LessIsTransitive(a, b, a);
      LessIsStrict(a);
    }
  }

  function First(names: set<string>): (m: string)
    requires names != {}
    ensures IsFirst(names, m)
  {
    assert exists m :: IsFirst(names, m) by {
      var m := FirstExists(names);
    }
    assert forall a, b | IsFirst(names, a) && IsFirst(names, b) :: a == b by {
      forall a, b | IsFirst(names, a) && IsFirst(names, b) ensures a == b {
        FirstIsUnique(names, a, b);
      }
    }
    var m :| m in names && IsFirst(names, m);
    m
  }

  function Members(list: seq<string>): set<string> {
    set n | n in list
  }

  lemma MembersOfNothing()
    ensures Members([]) == {}
  {
  }

  lemma MembersOfSnoc(list: seq<string>, n: string)
    ensures Members(list + [n]) == Members(list) + {n}
  {
  }

  lemma MembersAt(list: seq<string>, i: nat)
    requires i < |list|
    ensures list[i] in Members(list) && Members(list[..i + 1]) == Members(list[..i]) + {list[i]}
  {
    assert list[..i + 1] == list[..i] + [list[i]];
  }

  lemma {:induction false} LessAt(a: string, b: string, k: nat)
    requires k < |a| && k < |b| && a[..k] == b[..k] && a[k] < b[k]
    ensures Less(a, b)
  {
    if k > 0 {
      assert a[0] == a[..k][0] == b[..k][0] == b[0];
      assert a[1..][..k - 1] == a[..k][1..] && b[1..][..k - 1] == b[..k][1..];
      LessAt(a[1..], b[1..], k - 1);
    }
  }

  /** The order of the bytes: a proper prefix comes first, and otherwise the first byte that differs decides. */
  lemma {:induction false} LessIff(a: string, b: string)
    ensures Less(a, b) <==>
      (a <= b && a != b) || exists k :: 0 <= k < |a| && k < |b| && a[..k] == b[..k] && a[k] < b[k]
  {
    if k :| 0 <= k < |a| && k < |b| && a[..k] == b[..k] && a[k] < b[k] {
      LessAt(a, b, k);
    }
    if a != [] && b != [] {
      if a[0] < b[0] {
        assert a[..0] == b[..0];
      } else if a[0] == b[0] {
        LessIff(a[1..], b[1..]);
        assert a == [a[0]] + a[1..] && b == [b[0]] + b[1..];
        if k :| 0 <= k < |a[1..]| && k < |b[1..]| && a[1..][..k] == b[1..][..k] && a[1..][k] < b[1..][k] {
          assert a[..k + 1] == [a[0]] + a[1..][..k] && b[..k + 1] == [b[0]] + b[1..][..k];
          assert a[k + 1] < b[k + 1];
        }
      }
    }
  }

  lemma LessIsAsymmetric(a: string, b: string)
    ensures !(Less(a, b) && Less(b, a))
  {
    if Less(a, b) && Less(b, a) {
      LessIsTransitive(a, b, a);
      LessIsStrict(a);
    }
  }

  /** sort.Strings of the names of a set. */
  function Sorted(names: set<string>): (list: seq<string>)
    ensures forall n :: n in list <==> n in names
    ensures forall i, j :: 0 <= i < j < |list| ==> Less(list[i], list[j])
    decreases names
  {
    if names == {} then []
    else
      var m := First(names);
      [m] + Sorted(names - {m})
  }
}
