/** Sizes of finite sets and sequences. */
module Counting {

  /** A part is no larger than the whole, and the same if as large. */
  lemma {:induction false} SubsetSize<T>(a: set<T>, b: set<T>)
    requires a <= b
    ensures |a| <= |b| && (|a| == |b| ==> a == b)
    decreases |a|
  {
    if a != {} {
      var x :| x in a;
      SubsetSize(a - {x}, b - {x});
      assert a == (a - {x}) + {x} && b == (b - {x}) + {x};
    }
  }

  /** Different elements of a set are at most as many as it has. */
  lemma {:induction false} DistinctFit<T>(s: seq<T>, cells: set<T>)
    requires forall i :: 0 <= i < |s| ==> s[i] in cells
    requires forall i, j :: 0 <= i < j < |s| ==> s[i] != s[j]
    ensures |s| <= |cells|
    decreases |s|
  {
    if s != [] {
      var n := |s| - 1;
      DistinctFit(s[..n], cells - {s[n]});
    }
  }

  /** A set whose elements are all listed is no larger than the list. */
  lemma {:induction false} ListedFit<T>(cells: set<T>, s: seq<T>)
    requires forall a :: a in cells ==> a in s
    ensures |cells| <= |s|
    decreases |s|
  {
    if s == [] {
      assert cells == {};
    } else {
      assert s == [s[0]] + s[1..];
      ListedFit(cells - {s[0]}, s[1..]);
    }
  }

  lemma OneFewerLeft<T>(all: set<T>, found: set<T>, q: T)
    requires q in all && q !in found
    ensures |all - (found + {q})| + 1 == |all - found|
  {
    assert all - (found + {q}) == (all - found) - {q};
  }

  lemma FewerLeft<T>(all: set<T>, found: set<T>, found': set<T>)
    requires found <= found'
    ensures |all - found'| <= |all - found|
  {
    SubsetSize(all - found', all - found);
  }

  lemma SomeMissing<T>(a: set<T>, b: set<T>)
    requires a <= b && |a| != |b|
    ensures b - a != {}
  {
    assert b == a + (b - a);
    assert a + {} == a;
  }
}
