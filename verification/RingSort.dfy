/** What sorting a sequence by swaps means: order, preorders, and permuting one segment. */
module RingSort {

  /** `cmp` orders the elements of `s`: total and transitive, ties allowed. */
  ghost predicate TotalPreorder<T>(cmp: (T, T) -> int, s: seq<T>) {
    && (forall x, y :: x in s && y in s ==> cmp(x, y) <= 0 || cmp(y, x) <= 0)
    && forall x, y, z :: x in s && y in s && z in s && cmp(x, y) <= 0 && cmp(y, z) <= 0 ==> cmp(x, z) <= 0
  }

  /**
   All that sorting by pivots needs of the elements: what is greater than a pivot is not
   smaller than it, nor smaller than what goes to the pivot's other side. No transitivity.
   */
  ghost predicate Sortable<T>(cmp: (T, T) -> int, s: seq<T>) {
    && (forall p, y :: p in s && y in s && cmp(y, p) > 0 ==> cmp(p, y) <= 0)
    && forall x, p, y :: x in s && p in s && y in s && cmp(x, p) <= 0 && cmp(y, p) > 0 ==> cmp(x, y) <= 0
  }

  lemma PreorderIsSortable<T>(cmp: (T, T) -> int, s: seq<T>)
    requires TotalPreorder(cmp, s)
    ensures Sortable(cmp, s)
  {
    forall x, p, y | x in s && p in s && y in s && cmp(x, p) <= 0 && cmp(y, p) > 0 ensures cmp(x, y) <= 0 {
      assert cmp(p, y) <= 0;
    }
  }

  /** Between `lo` and `hi` no element comes behind a greater one. */
  ghost predicate Ordered<T>(cmp: (T, T) -> int, s: seq<T>, lo: int, hi: int) {
    0 <= lo && hi <= |s| && forall i, j :: lo <= i < j < hi ==> cmp(s[i], s[j]) <= 0
  }

  /** Only the segment from `lo` to `hi` is permuted. */
  ghost predicate Permuted<T>(a: seq<T>, b: seq<T>, lo: int, hi: int) {
    && |a| == |b| && multiset(a) == multiset(b)
    && forall i :: 0 <= i < |a| && !(lo <= i < hi) ==> a[i] == b[i]
  }

  /** Elements before `p` compare at most equal to the one at `p`, elements behind it greater. */
  ghost predicate Partitioned<T>(cmp: (T, T) -> int, s: seq<T>, lo: int, p: int, hi: int) {
    && 0 <= lo <= p < hi <= |s|
    && (forall i :: lo <= i < p ==> cmp(s[i], s[p]) <= 0)
    && forall i :: p < i < hi ==> cmp(s[i], s[p]) > 0
  }

  /** From `a` to `b` the segment is sorted, if the comparison makes sense. */
  ghost predicate Sorts<T>(cmp: (T, T) -> int, a: seq<T>, b: seq<T>, lo: int, hi: int) {
    Permuted(a, b, lo, hi) && (Sortable(cmp, a) ==> Ordered(cmp, b, lo, hi))
  }

  lemma ShortSorts<T>(cmp: (T, T) -> int, d: seq<T>, lo: int, hi: int)
    requires 0 <= lo <= hi <= lo + 1 && hi <= |d|
    ensures Sorts(cmp, d, d, lo, hi)
  {
  }

  function Swapped<T>(s: seq<T>, i: int, j: int): seq<T>
    requires 0 <= i < |s| && 0 <= j < |s|
  {
    s[i := s[j]][j := s[i]]
  }

  lemma SwapPermutes<T>(s: seq<T>, i: int, j: int, lo: int, hi: int)
    requires 0 <= lo <= i <= j < hi <= |s|
    ensures Permuted(s, Swapped(s, i, j), lo, hi)
  {
    var t := s[i := s[j]];
    assert multiset(t) == multiset(s) - multiset{s[i]} + multiset{s[j]};
    assert t[j] == s[j];
  }

  lemma PermutedChain<T>(a: seq<T>, b: seq<T>, c: seq<T>, lo: int, hi: int, lo': int, hi': int)
    requires Permuted(a, b, lo, hi) && Permuted(b, c, lo', hi') && lo <= lo' && hi' <= hi
    ensures Permuted(a, c, lo, hi)
  {
  }

  lemma SameElements<T>(a: seq<T>, b: seq<T>, x: T)
    requires multiset(a) == multiset(b)
    ensures x in a <==> x in b
  {
    assert x in multiset(a) <==> x in multiset(b);
  }

  lemma SortablePermuted<T>(cmp: (T, T) -> int, a: seq<T>, b: seq<T>)
    requires Sortable(cmp, a) && multiset(a) == multiset(b)
    ensures Sortable(cmp, b)
  {
    forall x | x in b ensures x in a {
      SameElements(a, b, x);
    }
  }

  lemma ThreeParts<T>(s: seq<T>, lo: int, hi: int)
    requires 0 <= lo <= hi <= |s|
    ensures multiset(s) == multiset(s[..lo]) + multiset(s[lo..hi]) + multiset(s[hi..])
  {
    assert s == s[..lo] + s[lo..hi] + s[hi..];
  }

  /** A permuted segment holds the same elements as before. */
  lemma SegmentElements<T>(a: seq<T>, b: seq<T>, lo: int, hi: int, i: int)
    requires Permuted(a, b, lo, hi) && 0 <= lo <= i < hi <= |a|
    ensures b[i] in a[lo..hi]
  {
    ThreeParts(a, lo, hi);
    ThreeParts(b, lo, hi);
    assert a[..lo] == b[..lo] && a[hi..] == b[hi..];
    var x := b[lo..hi][i - lo];
    assert multiset(a)[x] == multiset(b)[x];
    SameMultiplicity(a[lo..hi], b[lo..hi], x);
  }

  lemma SameMultiplicity<T>(a: seq<T>, b: seq<T>, x: T)
    requires multiset(a)[x] == multiset(b)[x] && x in b
    ensures x in a
  {
    assert x in multiset(b);
  }

  /** Sorting either side of a partition keeps it one. */
  lemma PartitionPermuted<T>(cmp: (T, T) -> int, a: seq<T>, b: seq<T>, lo: int, p: int, hi: int, lo': int, hi': int)
    requires Partitioned(cmp, a, lo, p, hi) && Permuted(a, b, lo', hi')
    requires (lo' == lo && hi' == p) || (lo' == p + 1 && hi' == hi)
    ensures Partitioned(cmp, b, lo, p, hi)
  {
    forall i | lo' <= i < hi' ensures exists j :: lo' <= j < hi' && b[i] == a[j] {
      SegmentElements(a, b, lo', hi', i);
      var j :| 0 <= j < hi' - lo' && a[lo'..hi'][j] == b[i];
      assert b[i] == a[lo' + j];
    }
  }

  /** Two ordered sides of a partition make an ordered whole. */
  lemma OrderedJoins<T>(cmp: (T, T) -> int, s: seq<T>, lo: int, p: int, hi: int)
    requires Sortable(cmp, s) && Partitioned(cmp, s, lo, p, hi)
    requires Ordered(cmp, s, lo, p) && Ordered(cmp, s, p + 1, hi)
    ensures Ordered(cmp, s, lo, hi)
  {
    forall i, j | lo <= i < j < hi ensures cmp(s[i], s[j]) <= 0 {
      assert i < p < j ==> cmp(s[i], s[p]) <= 0 && cmp(s[j], s[p]) > 0;
      assert i == p ==> cmp(s[j], s[p]) > 0;
    }
  }

  /** Midway through a partition: smaller data up to `s`, greater from there to `c`. */
  ghost predicate Split<T>(cmp: (T, T) -> int, d: seq<T>, pivot: T, lo: int, s: int, c: int, hi: int) {
    && 0 <= lo <= s + 1 <= c <= hi < |d| && d[hi] == pivot
    && (forall i :: lo <= i <= s ==> cmp(d[i], pivot) <= 0)
    && forall i :: s < i < c ==> cmp(d[i], pivot) > 0
  }

  ghost predicate Scanned<T>(cmp: (T, T) -> int, d0: seq<T>, d: seq<T>, pivot: T, lo: int, s: int, c: int, hi: int) {
    Split(cmp, d, pivot, lo, s, c, hi) && Permuted(d0, d, lo, hi + 1)
  }

  lemma SplitSwap<T>(cmp: (T, T) -> int, d: seq<T>, pivot: T, lo: int, s: int, c: int, hi: int)
    requires Split(cmp, d, pivot, lo, s, c, hi) && c < hi && cmp(d[c], pivot) <= 0
    ensures Split(cmp, Swapped(d, s + 1, c), pivot, lo, s + 1, c + 1, hi)
  {
    var e := Swapped(d, s + 1, c);
    assert forall i :: 0 <= i < |d| ==> e[i] == if i == c then d[s + 1] else if i == s + 1 then d[c] else d[i];
  }

  lemma ScanSwap<T>(cmp: (T, T) -> int, d0: seq<T>, d: seq<T>, pivot: T, lo: int, s: int, c: int, hi: int)
    requires Scanned(cmp, d0, d, pivot, lo, s, c, hi) && c < hi && cmp(d[c], pivot) <= 0
    ensures Scanned(cmp, d0, Swapped(d, s + 1, c), pivot, lo, s + 1, c + 1, hi)
  {
    SplitSwap(cmp, d, pivot, lo, s, c, hi);
    SwapPermutes(d, s + 1, c, lo, hi + 1);
    PermutedChain(d0, d, Swapped(d, s + 1, c), lo, hi + 1, lo, hi + 1);
  }

  lemma ScanSkip<T>(cmp: (T, T) -> int, d0: seq<T>, d: seq<T>, pivot: T, lo: int, s: int, c: int, hi: int)
    requires Scanned(cmp, d0, d, pivot, lo, s, c, hi) && c < hi && cmp(d[c], pivot) > 0
    ensures Scanned(cmp, d0, d, pivot, lo, s, c + 1, hi)
  {
  }

  lemma ScanEnd<T>(cmp: (T, T) -> int, d0: seq<T>, d: seq<T>, pivot: T, lo: int, s: int, hi: int)
    requires Scanned(cmp, d0, d, pivot, lo, s, hi, hi)
    ensures Partitioned(cmp, Swapped(d, s + 1, hi), lo, s + 1, hi + 1)
    ensures Permuted(d0, Swapped(d, s + 1, hi), lo, hi + 1)
  {
    SwapPermutes(d, s + 1, hi, lo, hi + 1);
    PermutedChain(d0, d, Swapped(d, s + 1, hi), lo, hi + 1, lo, hi + 1);
  }

  /** Sorting both sides of a partition sorts the whole. */
  lemma SidesSorted<T>(cmp: (T, T) -> int, d1: seq<T>, d2: seq<T>, d3: seq<T>, lo: int, p: int, hi: int)
    requires Partitioned(cmp, d1, lo, p, hi) && Sorts(cmp, d1, d2, lo, p) && Sorts(cmp, d2, d3, p + 1, hi)
    ensures Sorts(cmp, d1, d3, lo, hi)
  {
    PermutedChain(d1, d1, d2, lo, hi, lo, p);
    PermutedChain(d1, d2, d3, lo, hi, p + 1, hi);
    if Sortable(cmp, d1) {
      SortablePermuted(cmp, d1, d2);
      SortablePermuted(cmp, d1, d3);
      PartitionPermuted(cmp, d1, d2, lo, p, hi, lo, p);
      PartitionPermuted(cmp, d2, d3, lo, p, hi, p + 1, hi);
      OrderedJoins(cmp, d3, lo, p, hi);
    }
  }

  lemma SortsAfter<T>(cmp: (T, T) -> int, d0: seq<T>, d1: seq<T>, d3: seq<T>, lo: int, hi: int)
    requires Permuted(d0, d1, lo, hi) && Sorts(cmp, d1, d3, lo, hi)
    ensures Sorts(cmp, d0, d3, lo, hi)
  {
    PermutedChain(d0, d1, d3, lo, hi, lo, hi);
    if Sortable(cmp, d0) {
      SortablePermuted(cmp, d0, d1);
    }
  }
}
