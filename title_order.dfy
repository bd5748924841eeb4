/**
 * The order in which the sidebar lists note titles: Python's `sorted` on
 * `str` keys, that is, lexicographic comparison of code points, where a proper
 * prefix comes before every longer string that extends it.
 */
module TitleOrder {

  /** Python's `a < b` on two strings. */
  function Less(a: string, b: string): (r: bool)
    ensures |b| == 0 ==> !r
    ensures |a| < |b| && a == b[..|a|] ==> r
    decreases |a|
  {
    |b| > 0 && (|a| == 0 || a[0] < b[0] || (a[0] == b[0] && Less(a[1..], b[1..])))
  }

  lemma {:induction false} LessIrreflexive(a: string)
    ensures !Less(a, a)
    decreases |a|
  {
    if |a| > 0 {
      LessIrreflexive(a[1..]);
    }
  }

  lemma {:induction false} LessTransitive(a: string, b: string, c: string)
    requires Less(a, b) && Less(b, c)
    ensures Less(a, c)
    decreases |a|
  {
    if |a| > 0 && a[0] == b[0] && b[0] == c[0] {
      LessTransitive(a[1..], b[1..], c[1..]);
    }
  }

  /** Any two different titles are ordered one way or the other. */
  lemma {:induction false} LessTotal(a: string, b: string)
    requires a != b
    ensures Less(a, b) || Less(b, a)
    decreases |a|
  {
    if |a| > 0 && |b| > 0 && a[0] == b[0] {
      assert a == [a[0]] + a[1..] && b == [b[0]] + b[1..];
      LessTotal(a[1..], b[1..]);
    }
  }

  lemma LessAsymmetric(a: string, b: string)
    requires Less(a, b)
    ensures !Less(b, a)
  {
    if Less(b, a) {
      LessTransitive(a, b, a);
      LessIrreflexive(a);
    }
  }

  /** Every element comes before every later element: sorted and without repeats. */
  predicate StrictlyIncreasing(s: seq<string>)
  {
    forall i, j :: 0 <= i < j < |s| ==> Less(s[i], s[j])
  }

  predicate IsLeast(m: string, ks: set<string>)
  {
    m in ks && forall x :: x in ks && x != m ==> Less(m, x)
  }

  lemma {:induction false} LeastExists(ks: set<string>)
    requires ks != {}
    ensures exists m :: IsLeast(m, ks)
    decreases ks
  {
    var x :| x in ks;
    if ks != {x} {
      LeastExists(ks - {x});
      var m :| IsLeast(m, ks - {x});
      if Less(m, x) {
        forall y | y in ks && y != m
          ensures Less(m, y)
        {
        }
        assert IsLeast(m, ks);
      } else {
        LessTotal(m, x);
        forall y | y in ks && y != x
          ensures Less(x, y)
        {
          if y != m {
            LessTransitive(x, m, y);
          }
        }
        assert IsLeast(x, ks);
      }
    } else {
      assert IsLeast(x, ks);
    }
  }

  lemma LeastUnique(ks: set<string>)
    ensures forall a, b :: IsLeast(a, ks) && IsLeast(b, ks) ==> a == b
  {
    forall a, b | IsLeast(a, ks) && IsLeast(b, ks)
      ensures a == b
    {
      if a != b {
        LessAsymmetric(a, b);
      }
    }
  }

  /** `sorted(ks)`: the titles of `ks`, each once, in increasing order. */
  function Sorted(ks: set<string>): (r: seq<string>)
    ensures |r| == |ks|
    ensures forall k :: k in r <==> k in ks
    ensures StrictlyIncreasing(r)
    decreases ks
  {
    if ks == {} then []
    else
      LeastExists(ks);
      LeastUnique(ks);
      var m :| IsLeast(m, ks);
      [m] + Sorted(ks - {m})
  }

  /** Strictly increasing sequences never repeat an element. */
  lemma IncreasingHasNoRepeats(s: seq<string>)
    requires StrictlyIncreasing(s)
    ensures forall i, j :: 0 <= i < j < |s| ==> s[i] != s[j]
  {
    forall i, j | 0 <= i < j < |s|
      ensures s[i] != s[j]
    {
      LessIrreflexive(s[i]);
    }
  }

  /** There is only one way to list a set of titles in increasing order, so the
      listing depends on the set alone and not on the order keys were inserted. */
  lemma {:induction false} SortedIsUnique(s: seq<string>, ks: set<string>)
    requires StrictlyIncreasing(s)
    requires forall k :: k in s <==> k in ks
    ensures s == Sorted(ks)
    decreases |s|
  {
    if s == [] {
      assert ks == {};
    } else {
      var m := s[0];
      assert IsLeast(m, ks) by {
        forall x | x in ks && x != m
          ensures Less(m, x)
        {
          var j :| 0 <= j < |s| && s[j] == x;
        }
      }
      LeastUnique(ks);
      IncreasingHasNoRepeats(s);
      var rest := s[1..];
      assert forall k :: k in rest <==> k in ks - {m} by {
        forall k
          ensures k in rest <==> k in ks - {m}
        {
          if k in rest {
            var j :| 0 <= j < |rest| && rest[j] == k;
            assert s[j + 1] == k;
          }
        }
      }
      SortedIsUnique(rest, ks - {m});
      assert s == [m] + rest;
    }
  }
}
