/** The in-place merge sort of soft/mergesort.c. */
module MergeSort {

  predicate Sorted(s: seq<int>) {
    forall i, j :: 0 <= i < j < |s| ==> s[i] <= s[j]
  }

  /** Merging two lists; of two equal heads the one from the right goes first. */
  function Merge(x: seq<int>, y: seq<int>): seq<int>
    decreases |x| + |y|
  {
    if x == [] then y
    else if y == [] then x
    else if y[0] <= x[0] then [y[0]] + Merge(x, y[1..])
    else [x[0]] + Merge(x[1..], y)
  }

  lemma HeadAndTail(s: seq<int>)
    requires s != []
    ensures multiset(s) == multiset{s[0]} + multiset(s[1..])
  {
    assert s == [s[0]] + s[1..];
  }

  lemma {:induction false} MergePermutes(x: seq<int>, y: seq<int>)
    ensures multiset(Merge(x, y)) == multiset(x) + multiset(y)
    decreases |x| + |y|
  {
    if x != [] && y != [] {
      if y[0] <= x[0] {
        MergePermutes(x, y[1..]);
        HeadAndTail(y);
      } else {
        MergePermutes(x[1..], y);
        HeadAndTail(x);
      }
    }
  }

  /** No element of the list is below `h`. */
  predicate AtLeast(h: int, s: seq<int>) {
    forall i :: 0 <= i < |s| ==> h <= s[i]
  }

  lemma {:induction false} MergeAtLeast(h: int, x: seq<int>, y: seq<int>)
    requires AtLeast(h, x) && AtLeast(h, y)
    ensures AtLeast(h, Merge(x, y))
    decreases |x| + |y|
  {
    if x != [] && y != [] {
      if y[0] <= x[0] {
        MergeAtLeast(h, x, y[1..]);
      } else {
        MergeAtLeast(h, x[1..], y);
      }
    }
  }

  lemma SortedTail(s: seq<int>)
    requires Sorted(s) && s != []
    ensures Sorted(s[1..]) && AtLeast(s[0], s[1..]) && AtLeast(s[0], s)
  {
  }

  lemma SortedCons(h: int, s: seq<int>)
    requires Sorted(s) && AtLeast(h, s)
    ensures Sorted([h] + s)
  {
  }

  lemma Lower(h: int, k: int, s: seq<int>)
    requires h <= k && AtLeast(k, s)
    ensures AtLeast(h, s)
  {
  }

  lemma {:induction false} MergeSorts(x: seq<int>, y: seq<int>)
    requires Sorted(x) && Sorted(y)
    ensures Sorted(Merge(x, y))
    decreases |x| + |y|
  {
    hide Sorted, AtLeast;
    if x != [] && y != [] {
      SortedTail(x);
      SortedTail(y);
      if y[0] <= x[0] {
        MergeSorts(x, y[1..]);
        Lower(y[0], x[0], x);
        MergeAtLeast(y[0], x, y[1..]);
        SortedCons(y[0], Merge(x, y[1..]));
      } else {
        MergeSorts(x[1..], y);
        Lower(x[0], y[0], y);
        MergeAtLeast(x[0], x[1..], y);
        SortedCons(x[0], Merge(x[1..], y));
      }
    }
  }

  /** The element at `src` moved to `dest`, those between moved up by one. */
  function Shifted(s: seq<int>, dest: nat, src: nat): seq<int>
    requires dest <= src < |s|
  {
    s[..dest] + [s[src]] + s[dest..src] + s[src + 1..]
  }

  lemma ShiftedAt(s: seq<int>, dest: nat, src: nat, k: nat)
    requires dest <= src < |s| && k < |s|
    ensures |Shifted(s, dest, src)| == |s|
    ensures Shifted(s, dest, src)[k] == if k == dest then s[src] else if dest < k <= src then s[k - 1] else s[k]
  {
  }

  method ShiftTo(ar: array<int>, dest: nat, src: nat)
    requires dest <= src < ar.Length
    modifies ar
    ensures ar[..] == Shifted(old(ar[..]), dest, src)
  {
    hide Shifted;
    var i := src;
    var stored := ar[src];
    while i > dest
      invariant dest <= i <= src
      invariant forall k :: 0 <= k < ar.Length ==> ar[k] == if i < k <= src then old(ar[k - 1]) else old(ar[k])
    {
      ar[i] := ar[i - 1];
      i := i - 1;
    }
    ar[dest] := stored;
    ghost var was := old(ar[..]);
    ShiftedAt(was, dest, src, dest);
    forall k | 0 <= k < ar.Length
      ensures ar[k] == Shifted(was, dest, src)[k]
    {
      ShiftedAt(was, dest, src, k);
    }
  }

  /** What is still to come: the lists from `i` and from `j` merged in place of both. */
  ghost function Pending(s: seq<int>, i: nat, j: nat, right: nat): seq<int>
    requires i <= j <= right + 1 <= |s|
  {
    s[..i] + Merge(s[i..j], s[j..right + 1]) + s[right + 1..]
  }

  method CombineAr(ar: array<int>, left: nat, right: nat, pivot: nat)
    requires left <= pivot < right < ar.Length
    modifies ar
    ensures ar[..] == Pending(old(ar[..]), left, pivot + 1, right)
  {
    hide Shifted, Pending;
    var i, j := left, pivot + 1;
    ghost var was := ar[..];
    while j != right + 1 && i != j
      invariant left <= i <= j <= right + 1
      invariant Pending(ar[..], i, j, right) == Pending(was, left, pivot + 1, right)
      decreases right + 1 - i
    {
      ghost var s := ar[..];
      if ar[j] <= ar[i] {
        ShiftStep(s, i, j, right);
        ShiftTo(ar, i, j);
        i := i + 1;
        j := j + 1;
      } else {
        SkipStep(s, i, j, right);
        i := i + 1;
      }
    }
    NothingPending(ar[..], i, j, right);
  }

  lemma ShiftStep(s: seq<int>, i: nat, j: nat, right: nat)
    requires i < j <= right < |s| && s[j] <= s[i]
    ensures |Shifted(s, i, j)| == |s|
    ensures Pending(Shifted(s, i, j), i + 1, j + 1, right) == Pending(s, i, j, right)
  {
    var s' := Shifted(s, i, j);
    assert s'[i + 1..j + 1] == s[i..j];
    assert s'[j + 1..right + 1] == s[j + 1..right + 1] == s[j..right + 1][1..];
    assert s'[..i + 1] == s[..i] + [s[j]];
    assert s'[right + 1..] == s[right + 1..];
  }

  lemma SkipStep(s: seq<int>, i: nat, j: nat, right: nat)
    requires i < j <= right < |s| && s[i] < s[j]
    ensures Pending(s, i + 1, j, right) == Pending(s, i, j, right)
  {
    assert s[i + 1..j] == s[i..j][1..];
    assert s[..i + 1] == s[..i] + [s[i]];
  }

  lemma NothingPending(s: seq<int>, i: nat, j: nat, right: nat)
    requires i <= j <= right + 1 <= |s| && (j == right + 1 || i == j)
    ensures Pending(s, i, j, right) == s
  {
  }

  // ---------------------------------------------------------------------------
  // The sort
  // ---------------------------------------------------------------------------

  /** The array differs from what it was only in an ordered rearrangement of the segment. */
  ghost predicate SortedSegment(was: seq<int>, s: seq<int>, left: nat, right: nat) {
    && left <= right < |was| == |s|
    && s[..left] == was[..left] && s[right + 1..] == was[right + 1..]
    && Sorted(s[left..right + 1])
    && multiset(s[left..right + 1]) == multiset(was[left..right + 1])
  }

  /** Any pivot in the segment will do; a segment of one element needs none. */
  method MergeS(ar: array<int>, left: nat, right: nat, pivot: nat)
    requires left <= right < ar.Length && (left == right || left <= pivot < right)
    modifies ar
    ensures SortedSegment(old(ar[..]), ar[..], left, right)
    decreases right - left
  {
    hide SortedSegment, Pending;
    ghost var was := ar[..];
    if left == right {
      SingleSorted(was, left);
      return;
    }
    MergeS(ar, left, pivot, (left + pivot) / 2);
    ghost var first := ar[..];
    MergeS(ar, pivot + 1, right, (pivot + right + 1) / 2);
    ghost var second := ar[..];
    CombineAr(ar, left, right, pivot);
    HalvesSorted(was, first, second, left, right, pivot);
  }

  lemma SingleSorted(s: seq<int>, left: nat)
    requires left < |s|
    ensures SortedSegment(s, s, left, left)
  {
  }

  lemma HalvesSorted(was: seq<int>, first: seq<int>, second: seq<int>, left: nat, right: nat, pivot: nat)
    requires left <= pivot < right < |was|
    requires SortedSegment(was, first, left, pivot) && SortedSegment(first, second, pivot + 1, right)
    ensures |second| == |was| && SortedSegment(was, Pending(second, left, pivot + 1, right), left, right)
  {
    hide Sorted;
    var x, y := second[left..pivot + 1], second[pivot + 1..right + 1];
    var p, q := was[left..pivot + 1], was[pivot + 1..right + 1];
    assert x == first[left..pivot + 1] by {
      assert x == second[..pivot + 1][left..] == first[..pivot + 1][left..];
    }
    assert first[pivot + 1..right + 1] == q by {
      assert first[pivot + 1..][..right - pivot] == first[pivot + 1..right + 1];
      assert was[pivot + 1..][..right - pivot] == q;
    }
    MergeSorts(x, y);
    MergePermutes(x, y);
    MergeLength(x, y);
    var s := Pending(second, left, pivot + 1, right);
    assert s[left..right + 1] == Merge(x, y);
    assert was[left..right + 1] == p + q;
    assert s[..left] == second[..left] == second[..pivot + 1][..left] == first[..pivot + 1][..left] == first[..left];
    assert s[right + 1..] == second[right + 1..] == first[right + 1..];
    assert first[right + 1..] == first[pivot + 1..][right - pivot..];
    assert first[right + 1..] == was[pivot + 1..][right - pivot..] == was[right + 1..];
  }

  lemma {:induction false} MergeLength(x: seq<int>, y: seq<int>)
    ensures |Merge(x, y)| == |x| + |y|
    decreases |x| + |y|
  {
    if x != [] && y != [] {
      if y[0] <= x[0] {
        MergeLength(x, y[1..]);
      } else {
        MergeLength(x[1..], y);
      }
    }
  }
}
