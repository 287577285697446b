/**
 * The order Python's `sorted` puts strings in: lexicographic by code point,
 * a proper prefix before its extensions; and the sorted listing of a set.
 */
module Ordering {

  /** `a < b` on strings: code-point lexicographic order. */
  predicate Below(a: string, b: string)
    decreases |a|
  {
    if a == [] then b != []
    else if b == [] then false
    else if a[0] != b[0] then a[0] < b[0]
    else Below(a[1..], b[1..])
  }

  /** `a` is a proper prefix of `b`. */
  ghost predicate ProperPrefix(a: string, b: string)
  {
    |a| < |b| && a == b[..|a|]
  }

  /** `a` and `b` agree before position `k`, where `a` has the smaller code point. */
  ghost predicate FirstDifferenceBelow(a: string, b: string, k: int)
  {
    0 <= k < |a| && k < |b| && a[..k] == b[..k] && a[k] < b[k]
  }

  /**
   * `Below` is Python's string order: `a` comes first when it is a proper
   * prefix of `b`, or when at the first position where they differ `a` has
   * the smaller code point.
   */
  lemma {:induction false} BelowIsPythonOrder(a: string, b: string)
    ensures Below(a, b) <==> ProperPrefix(a, b) || exists k :: FirstDifferenceBelow(a, b, k)
    decreases |a|
  {
    if a == [] {
      assert b != [] ==> a == b[..0];
    } else if b != [] && a[0] != b[0] {
      assert a[..0] == b[..0];
      assert a[0] < b[0] ==> FirstDifferenceBelow(a, b, 0);
    } else if b != [] {
      BelowIsPythonOrder(a[1..], b[1..]);
      PrefixOfTails(a, b);
      if exists k :: FirstDifferenceBelow(a[1..], b[1..], k) {
        var k :| FirstDifferenceBelow(a[1..], b[1..], k);
        DifferenceOfTails(a, b, k);
      }
      if exists k :: FirstDifferenceBelow(a, b, k) {
        var k :| FirstDifferenceBelow(a, b, k);
        DifferenceOfTails(a, b, k - 1);
      }
    }
  }

  /** Dropping an equal first character keeps the proper-prefix relation. */
  lemma PrefixOfTails(a: string, b: string)
    requires a != [] && b != [] && a[0] == b[0]
    ensures ProperPrefix(a, b) <==> ProperPrefix(a[1..], b[1..])
  {
    assert a == [a[0]] + a[1..];
    if |a| < |b| {
      assert b[..|a|] == [b[0]] + b[1..][..|a| - 1];
    }
  }

  /** Dropping an equal first character moves the first difference back one place. */
  lemma DifferenceOfTails(a: string, b: string, k: int)
    requires a != [] && b != [] && a[0] == b[0]
    ensures FirstDifferenceBelow(a, b, k + 1) <==> FirstDifferenceBelow(a[1..], b[1..], k)
  {
    if 0 <= k < |a| - 1 && k < |b| - 1 {
      assert a[..k + 1] == [a[0]] + a[1..][..k] && b[..k + 1] == [b[0]] + b[1..][..k];
      assert a[..k + 1] == b[..k + 1] <==> a[1..][..k] == b[1..][..k];
    }
  }

  lemma {:induction false} BelowIrreflexive(a: string)
    ensures !Below(a, a)
    decreases |a|
  {
    if a != [] { BelowIrreflexive(a[1..]); }
  }

  lemma {:induction false} BelowAsymmetric(a: string, b: string)
    requires Below(a, b)
    ensures !Below(b, a)
    decreases |a|
  {
    if a != [] && b != [] && a[0] == b[0] { BelowAsymmetric(a[1..], b[1..]); }
  }

  lemma {:induction false} BelowTransitive(a: string, b: string, c: string)
    requires Below(a, b) && Below(b, c)
    ensures Below(a, c)
    decreases |a|
  {
    if a != [] && a[0] == b[0] && b[0] == c[0] { BelowTransitive(a[1..], b[1..], c[1..]); }
  }

  lemma {:induction false} BelowTotal(a: string, b: string)
    requires a != b
    ensures Below(a, b) || Below(b, a)
    decreases |a|
  {
    if a != [] && b != [] && a[0] == b[0] {
      assert a == [a[0]] + a[1..] && b == [b[0]] + b[1..];
      BelowTotal(a[1..], b[1..]);
    }
  }

  /** Every pair of positions is in order: sorted and free of duplicates. */
  predicate StrictlyIncreasing(r: seq<string>)
  {
    forall i, j :: 0 <= i < j < |r| ==> Below(r[i], r[j])
  }

  /** `m` comes before every other element of `s`. */
  predicate IsLeast(m: string, s: set<string>)
  {
    m in s && forall x :: x in s && x != m ==> Below(m, x)
  }

  /** A finite non-empty set of strings has a least element. */
  lemma {:induction false} LeastExists(s: set<string>)
    requires s != {}
    ensures exists m :: IsLeast(m, s)
    decreases |s|
  {
    var y :| y in s;
    if s == {y} {
      assert IsLeast(y, s);
    } else {
      LeastExists(s - {y});
      var m :| IsLeast(m, s - {y});
      if Below(m, y) {
        assert IsLeast(m, s);
      } else {
        BelowTotal(m, y);
        forall x | x in s && x != y ensures Below(y, x) {
          if x != m { BelowTransitive(y, m, x); }
        }
        assert IsLeast(y, s);
      }
    }
  }

  /** The least element of a non-empty set. */
  function Least(s: set<string>): (m: string)
    requires s != {}
    ensures IsLeast(m, s)
  {
    LeastExists(s);
    LeastUnique(s);
    var m :| IsLeast(m, s); m
  }

  lemma LeastUnique(s: set<string>)
    ensures forall m1, m2 :: IsLeast(m1, s) && IsLeast(m2, s) ==> m1 == m2
  {
    forall m1, m2 | IsLeast(m1, s) && IsLeast(m2, s) ensures m1 == m2 {
      if m1 != m2 { BelowAsymmetric(m1, m2); }
    }
  }

  /** `sorted(s)`: the elements of `s` in increasing order. */
  function Sorted(s: set<string>): (r: seq<string>)
    ensures |r| == |s|
    ensures forall x :: x in r <==> x in s
    ensures StrictlyIncreasing(r)
    decreases |s|
  {
    if s == {} then []
    else
      var m := Least(s);
      [m] + Sorted(s - {m})
  }

  /**
   * The sorted listing is the only duplicate-free increasing listing of the
   * set: the header does not depend on the order the set is visited in.
   */
  lemma {:induction false} SortedUnique(s: set<string>, r: seq<string>)
    requires StrictlyIncreasing(r)
    requires forall x :: x in r <==> x in s
    ensures r == Sorted(s)
    decreases |r|
  {
    if r == [] {
      assert s == {};
    } else {
      var m := r[0];
      assert IsLeast(m, s) by {
        forall x | x in s && x != m ensures Below(m, x) {
          var j :| 0 <= j < |r| && r[j] == x;
        }
      }
      LeastUnique(s);
      assert m !in r[1..] by {
        forall j | 1 <= j < |r| ensures r[j] != m {
          if r[j] == m { BelowIrreflexive(m); }
        }
      }
      assert forall x :: x in r[1..] <==> x in s - {m} by {
        assert r == [m] + r[1..];
      }
      SortedUnique(s - {m}, r[1..]);
    }
  }
}
