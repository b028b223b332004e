/**
 * Python's ordering of `str` values (what `sorted` uses on the function names
 * of a file): lexicographic by code point, a proper prefix before any of its
 * extensions, and the sorted-distinct sequences it gives rise to.
 */
module LexOrder {

  /** `a < b` on Python strings. */
  predicate Less(a: string, b: string)
  {
    if |a| == 0 then |b| > 0
    else |b| > 0 && (a[0] < b[0] || (a[0] == b[0] && Less(a[1..], b[1..])))
  }

  lemma {:induction false} LessIrreflexive(a: string)
    ensures !Less(a, a)
  {
    if |a| > 0 {
      LessIrreflexive(a[1..]);
    }
  }

  lemma {:induction false} LessTransitive(a: string, b: string, c: string)
    requires Less(a, b) && Less(b, c)
    ensures Less(a, c)
  {
    if |a| > 0 && a[0] == b[0] && b[0] == c[0] {
      LessTransitive(a[1..], b[1..], c[1..]);
    }
  }

  /** Any two distinct strings are ordered one way or the other. */
  lemma {:induction false} LessTotal(a: string, b: string)
    ensures a == b || Less(a, b) || Less(b, a)
  {
    if |a| > 0 && |b| > 0 && a[0] == b[0] {
      LessTotal(a[1..], b[1..]);
      if a[1..] == b[1..] {
        assert a == [a[0]] + a[1..] && b == [b[0]] + b[1..];
      }
    }
  }

  /** At the first position where two strings differ, the smaller code point
      decides the order. */
  lemma {:induction false} LessAtFirstDifference(a: string, b: string, k: nat)
    requires k < |a| && k < |b| && a[..k] == b[..k] && a[k] != b[k]
    ensures Less(a, b) <==> a[k] < b[k]
  {
    if k > 0 {
      assert a[0] == a[..k][0] && b[0] == b[..k][0];
      assert a[1..][..k - 1] == a[..k][1..] && b[1..][..k - 1] == b[..k][1..];
      LessAtFirstDifference(a[1..], b[1..], k - 1);
    }
  }

  /** A prefix of a string precedes it exactly when it is a proper prefix. */
  lemma {:induction false} LessOnPrefix(a: string, b: string)
    requires |a| <= |b| && a == b[..|a|]
    ensures Less(a, b) <==> |a| < |b|
  {
    if |a| > 0 {
      assert a[0] == b[0] && a[1..] == b[1..][..|a| - 1];
      LessOnPrefix(a[1..], b[1..]);
    }
  }

  /** Strictly increasing: sorted, and therefore free of duplicates. */
  ghost predicate StrictlySorted(s: seq<string>)
  {
    forall i, j :: 0 <= i < j < |s| ==> Less(s[i], s[j])
  }

  /** Adds `x` to a strictly sorted sequence unless it is already there. */
  function InsertSorted(x: string, s: seq<string>): (r: seq<string>)
    requires StrictlySorted(s)
    ensures StrictlySorted(r)
    ensures forall y :: y in r <==> y == x || y in s
  {
    if s == [] then [x]
    else if x == s[0] then s
    else if Less(x, s[0]) then
      assert StrictlySorted([x] + s) by {
        forall j | 0 <= j < |s| ensures Less(x, s[j]) {
          if j > 0 {
            LessTransitive(x, s[0], s[j]);
          }
        }
      }
      [x] + s
    else
      var rest := InsertSorted(x, s[1..]);
      assert StrictlySorted([s[0]] + rest) by {
        LessTotal(x, s[0]);
        forall y | y in rest ensures Less(s[0], y) {
          if y != x {
            var j :| 0 <= j < |s[1..]| && s[1..][j] == y;
            assert s[j + 1] == y;
          }
        }
        forall i, j | 0 <= i < j < |[s[0]] + rest| ensures Less(([s[0]] + rest)[i], ([s[0]] + rest)[j]) {
          if i == 0 {
            assert ([s[0]] + rest)[j] in rest;
          }
        }
      }
      [s[0]] + rest
  }

  /** The head of a strictly sorted sequence precedes every other element. */
  lemma HeadIsLeast(s: seq<string>, y: string)
    requires StrictlySorted(s) && y in s && y != s[0]
    ensures Less(s[0], y)
  {
  }

  /** Two strictly sorted sequences with the same elements and the same head
      have the same elements after the head. */
  lemma TailMember(a: seq<string>, b: seq<string>, y: string)
    requires StrictlySorted(a) && StrictlySorted(b)
    requires forall z :: z in a <==> z in b
    requires a != [] && b != [] && a[0] == b[0] && y in a[1..]
    ensures y in b[1..]
  {
    var j :| 0 <= j < |a[1..]| && a[1..][j] == y;
    assert a[j + 1] == y && Less(a[0], y) && y in a;
    LessIrreflexive(y);
    var k :| 0 <= k < |b| && b[k] == y;
    assert b[1..][k - 1] == y;
  }

  /** A strictly sorted sequence is determined by its elements. */
  lemma {:induction false} StrictlySortedUnique(a: seq<string>, b: seq<string>)
    requires StrictlySorted(a) && StrictlySorted(b)
    requires forall y :: y in a <==> y in b
    ensures a == b
    decreases |a| + |b|, |b|
  {
    if a != [] {
      assert a[0] in b;
      if a[0] != b[0] {
        HeadIsLeast(b, a[0]);
        HeadIsLeast(a, b[0]);
        LessTransitive(a[0], b[0], a[0]);
        LessIrreflexive(a[0]);
      }
      forall y ensures y in a[1..] <==> y in b[1..] {
        if y in a[1..] {
          TailMember(a, b, y);
        }
        if y in b[1..] {
          TailMember(b, a, y);
        }
      }
      StrictlySortedUnique(a[1..], b[1..]);
      assert a == [a[0]] + a[1..] && b == [b[0]] + b[1..];
    } else if b != [] {
      StrictlySortedUnique(b, a);
    }
  }
}
