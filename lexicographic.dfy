/**
 * Strict lexicographic order on sequences of integers, as
 * `std::lexicographical_compare` decides it: walk both sequences together;
 * the first differing element decides; if one runs out first, it is the
 * smaller one exactly when the other still has elements.
 */
module Lexicographic {

  /**
   * `std::lexicographical_compare(a.begin(), a.end(), b.begin(), b.end())`.
   * A proper prefix is smaller; a sequence is never smaller than one of its
   * own prefixes, itself included.
   */
  function LexLess(a: seq<int>, b: seq<int>): (r: bool)
    ensures |a| < |b| && a == b[..|a|] ==> r
    ensures |b| <= |a| && b == a[..|b|] ==> !r
  {
    if b == [] then false
    else if a == [] then true
    else if a[0] < b[0] then true
    else if b[0] < a[0] then false
    else LexLess(a[1..], b[1..])
  }

  /**
   * The textbook definition, independent of the walk: either `a` and `b`
   * agree before some index `k` and `a[k] < b[k]`, or `a` is a proper
   * prefix of `b`.
   */
  ghost predicate LexLessByIndex(a: seq<int>, b: seq<int>) {
    (exists k :: 0 <= k < |a| && k < |b| && a[..k] == b[..k] && a[k] < b[k])
    || (|a| < |b| && a == b[..|a|])
  }

  lemma {:induction false} LexLessMatchesIndex(a: seq<int>, b: seq<int>)
    ensures LexLess(a, b) <==> LexLessByIndex(a, b)
    decreases |a|
  {
    if b == [] {
    } else if a == [] {
      assert a == b[..0];
    } else if a[0] < b[0] {
      assert a[..0] == b[..0];
    } else if b[0] < a[0] {
      if exists k :: 0 <= k < |a| && k < |b| && a[..k] == b[..k] && a[k] < b[k] {
        var k :| 0 <= k < |a| && k < |b| && a[..k] == b[..k] && a[k] < b[k];
        if k > 0 {
          assert a[..k][0] == b[..k][0];
        }
      }
    } else {
      LexLessMatchesIndex(a[1..], b[1..]);
      if exists k :: 0 <= k < |a| && k < |b| && a[..k] == b[..k] && a[k] < b[k] {
        var k :| 0 <= k < |a| && k < |b| && a[..k] == b[..k] && a[k] < b[k];
        assert a[1..][..k - 1] == a[..k][1..];
        assert b[1..][..k - 1] == b[..k][1..];
      }
      if exists k :: 0 <= k < |a[1..]| && k < |b[1..]| && a[1..][..k] == b[1..][..k] && a[1..][k] < b[1..][k] {
        var k :| 0 <= k < |a[1..]| && k < |b[1..]| && a[1..][..k] == b[1..][..k] && a[1..][k] < b[1..][k];
        assert a[..k + 1] == [a[0]] + a[1..][..k];
        assert b[..k + 1] == [b[0]] + b[1..][..k];
      }
      if |a| < |b| && a == b[..|a|] {
        assert b[1..][..|a[1..]|] == b[..|a|][1..];
      }
      if |a[1..]| < |b[1..]| && a[1..] == b[1..][..|a[1..]|] {
        assert a == [a[0]] + a[1..];
        assert b[..|a|] == [b[0]] + b[1..][..|a[1..]|];
      }
    }
  }

  lemma {:induction false} LexLessIrreflexive(a: seq<int>)
    ensures !LexLess(a, a)
    decreases |a|
  {
    if a != [] {
      LexLessIrreflexive(a[1..]);
    }
  }

  lemma {:induction false} LexLessTransitive(a: seq<int>, b: seq<int>, c: seq<int>)
    requires LexLess(a, b) && LexLess(b, c)
    ensures LexLess(a, c)
    decreases |a|
  {
    if a != [] && a[0] == b[0] && b[0] == c[0] {
      LexLessTransitive(a[1..], b[1..], c[1..]);
    }
  }

  /** Any two different sequences are ordered one way or the other. */
  lemma {:induction false} LexLessTotal(a: seq<int>, b: seq<int>)
    requires a != b
    ensures LexLess(a, b) || LexLess(b, a)
    decreases |a|
  {
    if a != [] && b != [] && a[0] == b[0] {
      assert a == [a[0]] + a[1..] && b == [b[0]] + b[1..];
      LexLessTotal(a[1..], b[1..]);
    }
  }

  lemma {:induction false} LexLessAsymmetric(a: seq<int>, b: seq<int>)
    requires LexLess(a, b)
    ensures !LexLess(b, a)
  {
    if LexLess(b, a) {
      LexLessTransitive(a, b, a);
      LexLessIrreflexive(a);
    }
  }
}
