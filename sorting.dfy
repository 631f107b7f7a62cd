/** Painter's-algorithm ordering: the triangles to render are sorted in
    place by average depth, farthest first, with a Lomuto quicksort whose
    comparator is the depth comparison. */
module Sorting {
  import Display

  /** A triangle to render. Only the average depth takes part in the
      sort; the other fields are carried along unchanged. */
  datatype Triangle = Triangle(points: seq<Display.Point>, color: bv32, avgDepth: real)

  /** compare_triangle_depth: positive when a is nearer than b (so b is
      drawn first), negative when a is farther, zero on equal depths. */
  function CompareDepth(a: Triangle, b: Triangle): (r: int)
    ensures r == 1 <==> a.avgDepth < b.avgDepth
    ensures r == -1 <==> a.avgDepth > b.avgDepth
    ensures r == 0 <==> a.avgDepth == b.avgDepth
  {
    if a.avgDepth < b.avgDepth then 1
    else if a.avgDepth > b.avgDepth then -1
    else 0
  }

  /** The comparator is antisymmetric and reflexive-zero. */
  lemma CompareAntisymmetric(a: Triangle, b: Triangle)
    ensures CompareDepth(a, b) == -CompareDepth(b, a)
    ensures CompareDepth(a, a) == 0
  {
  }

  /** If two sequences agree outside [lo, hi) and hold the same elements,
      the parts inside hold the same elements too. */
  lemma SliceMultiset(a: seq<Triangle>, b: seq<Triangle>, lo: int, hi: int)
    requires |a| == |b| && 0 <= lo <= hi <= |a|
    requires a[..lo] == b[..lo] && a[hi..] == b[hi..]
    requires multiset(a) == multiset(b)
    ensures multiset(a[lo..hi]) == multiset(b[lo..hi])
  {
    SplitMultiset(a, lo, hi);
    SplitMultiset(b, lo, hi);
    MultisetCancel(multiset(a[lo..hi]), multiset(b[lo..hi]), multiset(a[..lo]) + multiset(a[hi..]));
  }

  /** The elements of a sequence are those of a middle part and of the
      parts around it. */
  lemma SplitMultiset(a: seq<Triangle>, lo: int, hi: int)
    requires 0 <= lo <= hi <= |a|
    ensures multiset(a) == multiset(a[lo..hi]) + (multiset(a[..lo]) + multiset(a[hi..]))
  {
    assert a == a[..lo] + (a[lo..hi] + a[hi..]);
  }

  /** Adding the same multiset to two others can be undone. */
  lemma MultisetCancel(m: multiset<Triangle>, n: multiset<Triangle>, o: multiset<Triangle>)
    requires m + o == n + o
    ensures m == n
  {
    assert m == (m + o) - o;
    assert n == (n + o) - o;
  }

  /** x is one of the cells lo..hi-1 of s. */
  ghost predicate HeldIn(x: Triangle, s: seq<Triangle>, lo: int, hi: int)
  {
    exists m :: lo <= m < hi && 0 <= m < |s| && x == s[m]
  }

  /** Reordering cells [lo, hi) of a sequence, and nothing else, leaves
      in each of them an element that was somewhere in that range. */
  lemma RearrangedWithin(s: seq<Triangle>, t: seq<Triangle>, lo: int, hi: int)
    requires |s| == |t| && 0 <= lo <= hi <= |s|
    requires forall k :: 0 <= k < |s| && !(lo <= k < hi) ==> s[k] == t[k]
    requires multiset(s) == multiset(t)
    ensures forall k :: lo <= k < hi ==> HeldIn(t[k], s, lo, hi)
  {
    assert s[..lo] == t[..lo] && s[hi..] == t[hi..];
    SliceMultiset(s, t, lo, hi);
    forall k | lo <= k < hi
      ensures HeldIn(t[k], s, lo, hi)
    {
      assert t[k] == t[lo..hi][k - lo];
      assert t[k] in multiset(s[lo..hi]);
      var m :| 0 <= m < hi - lo && s[lo..hi][m] == t[k];
      assert lo <= lo + m < hi && t[k] == s[lo + m];
    }
  }

  /** Cells lo..hi of s (those that exist) are in non-increasing depth
      order: farthest first. */
  ghost predicate FarthestFirst(s: seq<Triangle>, lo: int, hi: int)
  {
    forall i, j :: lo <= i < j <= hi && 0 <= i && j < |s| ==> s[i].avgDepth >= s[j].avgDepth
  }

  /** s and r have the same length and differ at most in cells lo..hi. */
  ghost predicate SameOutside(s: seq<Triangle>, r: seq<Triangle>, lo: int, hi: int)
  {
    |s| == |r| && forall k :: 0 <= k < |s| && !(lo <= k <= hi) ==> s[k] == r[k]
  }

  /** Two sorted runs around a pivot, the left one deeper than the pivot
      and the right one not, make one sorted run. */
  lemma JoinSorted(s: seq<Triangle>, low: int, p: int, high: int)
    requires 0 <= low <= p <= high < |s|
    requires FarthestFirst(s, low, p - 1) && FarthestFirst(s, p + 1, high)
    requires forall k :: low <= k < p ==> s[k].avgDepth > s[p].avgDepth
    requires forall k :: p < k <= high ==> s[k].avgDepth <= s[p].avgDepth
    ensures FarthestFirst(s, low, high)
  {
  }

  /** The step of quicksort: a partitioned range whose two sides are then
      sorted in place, one after the other, ends sorted; only the range
      has changed. */
  lemma QuicksortStep(parted: seq<Triangle>, left: seq<Triangle>, right: seq<Triangle>, low: int, p: int, high: int)
    requires 0 <= low <= p <= high < |parted|
    requires forall k :: low <= k < p ==> CompareDepth(parted[k], parted[p]) < 0
    requires forall k :: p < k <= high ==> CompareDepth(parted[k], parted[p]) >= 0
    requires SameOutside(left, parted, low, p - 1) && multiset(left) == multiset(parted)
    requires FarthestFirst(left, low, p - 1)
    requires SameOutside(right, left, p + 1, high) && multiset(right) == multiset(left)
    requires FarthestFirst(right, p + 1, high)
    ensures FarthestFirst(right, low, high)
    ensures SameOutside(right, parted, low, high)
  {
    RearrangedWithin(parted, left, low, p);
    RearrangedWithin(left, right, p + 1, high + 1);
    JoinSorted(right, low, p, high);
  }

  /** Swaps two cells of the array. */
  method Swap(t: array<Triangle>, i: int, j: int)
    requires 0 <= i < t.Length && 0 <= j < t.Length
    modifies t
    ensures t[i] == old(t[j]) && t[j] == old(t[i])
    ensures forall k :: 0 <= k < t.Length && k != i && k != j ==> t[k] == old(t[k])
    ensures multiset(t[..]) == old(multiset(t[..]))
  {
    var temp := t[i];
    t[i] := t[j];
    t[j] := temp;
  }

  /** partition: the pivot t[high] ends at the returned index; everything
      before it in the range is deeper, everything after it is not, and
      only cells inside [low, high] are swapped. */
  method Partition(t: array<Triangle>, low: int, high: int) returns (p: int)
    requires 0 <= low <= high < t.Length
    modifies t
    ensures low <= p <= high
    ensures t[p] == old(t[high])
    ensures forall k :: low <= k < p ==> CompareDepth(t[k], t[p]) < 0
    ensures forall k :: p < k <= high ==> CompareDepth(t[k], t[p]) >= 0
    ensures forall k :: 0 <= k < t.Length && !(low <= k <= high) ==> t[k] == old(t[k])
    ensures multiset(t[..]) == old(multiset(t[..]))
  {
    var pivot := t[high];
    var i := low - 1;
    for j := low to high
      invariant low - 1 <= i < j
      invariant t[high] == pivot
      invariant forall k :: low <= k <= i ==> CompareDepth(t[k], pivot) < 0
      invariant forall k :: i < k < j ==> CompareDepth(t[k], pivot) >= 0
      invariant forall k :: 0 <= k < t.Length && !(low <= k <= high) ==> t[k] == old(t[k])
      invariant multiset(t[..]) == old(multiset(t[..]))
    {
      if CompareDepth(t[j], pivot) < 0 {
        i := i + 1;
        Swap(t, i, j);
      }
    }
    Swap(t, i + 1, high);
    p := i + 1;
  }

  /** quicksort: cells low..high end farthest first, as a permutation of
      what they held; an empty or one-cell range is left untouched, and no
      cell outside the range changes. */
  method Quicksort(t: array<Triangle>, low: int, high: int)
    requires low < high ==> 0 <= low && high < t.Length
    modifies t
    ensures low >= high ==> t[..] == old(t[..])
    ensures FarthestFirst(t[..], low, high)
    ensures SameOutside(t[..], old(t[..]), low, high)
    ensures multiset(t[..]) == old(multiset(t[..]))
    decreases high - low
  {
    if low < high {
      var p := Partition(t, low, high);
      ghost var parted := t[..];
      Quicksort(t, low, p - 1);
      ghost var left := t[..];
      Quicksort(t, p + 1, high);
      QuicksortStep(parted, left, t[..], low, p, high);
    }
  }
}
