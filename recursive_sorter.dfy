/** The range invariants of the partition sort, stated on the contents of the
    array, and the steps that carry them through a swap and through the two
    recursive calls. */
module RecursivePartition {
  import opened Sorter

  /** The absolute value of `x`. */
  function Abs(x: int): (r: nat)
    ensures r == x || r == -x
  {
    if x >= 0 then x else -x
  }

  /** Java's `/` on `int` (section 15.17.2 of the Java Language
      Specification): the quotient is truncated toward zero, so its magnitude
      is the largest `n` with `|b * n| <= |a|`, and it is zero or carries the
      sign of `a`. */
  function JavaDiv(a: int, b: int): (q: int)
    requires b > 0
    ensures b * Abs(q) <= Abs(a) < b * (Abs(q) + 1)
    ensures (a >= 0 ==> q >= 0) && (a <= 0 ==> q <= 0)
  {
    var m, d := Abs(a), Abs(a) / b;
    assert b * d + m % b == m && 0 <= m % b < b;
    assert b * (d + 1) == b * d + b;
    if a >= 0 then d else -d
  }

  /** The initial pivot index `i - (i - j) / 2` in Java arithmetic: for a
      range `i <= j` it lies inside the range, and strictly left of `j` when
      the range has more than one cell. */
  function MidPivot(i: int, j: int): (s: int)
    ensures i <= j ==> i <= s <= j
    ensures i < j ==> s < j
  {
    i - JavaDiv(i - j, 2)
  }

  /** On a range `i <= j` the pivot is the lower midpoint. */
  lemma MidPivotIsMidpoint(i: int, j: int)
    requires i <= j
    ensures MidPivot(i, j) == i + (j - i) / 2
  {
    var q := JavaDiv(i - j, 2);
    assert 2 * (-q) <= j - i < 2 * (-q + 1);
  }

  /** The last cell of `left..right` holds a largest element of the range. */
  ghost predicate MaxAtRight(s: seq<int>, left: int, right: int) {
    0 <= left <= right < |s| && forall k :: left <= k <= right ==> s[k] <= s[right]
  }

  /** `t` is `s` with only the cells `lo..hi-1` rearranged. */
  ghost predicate Permuted(s: seq<int>, t: seq<int>, lo: int, hi: int) {
    |s| == |t| && 0 <= lo <= hi <= |s| &&
    s[..lo] == t[..lo] && s[hi..] == t[hi..] &&
    multiset(s[lo..hi]) == multiset(t[lo..hi])
  }

  /** Cell `S` of `left..right` separates it: nothing before it is larger and
      nothing after it is smaller. */
  ghost predicate Split(s: seq<int>, left: int, S: int, right: int) {
    0 <= left <= S <= right < |s| &&
    AllAtMost(s[left..S], s[S]) && AllAtLeast(s[S + 1..right + 1], s[S])
  }

  /** The invariant of the partition loop: `p` is the pivot value and `S`
      follows it, everything left of `i` is at most `p`, everything right of
      `j` is at least `p`, only the range has been rearranged, and a largest
      element that started at `right` is still there with the pivot left of
      it. */
  ghost predicate PartitionInv(s0: seq<int>, s: seq<int>, left: int, right: int,
                               i: int, j: int, S: int, p: int, maxRight: bool) {
    0 <= left <= i <= S <= j <= right < |s| &&
    Permuted(s0, s, left, right + 1) &&
    s[S] == p &&
    AllAtMost(s[left..i], p) && AllAtLeast(s[j + 1..right + 1], p) &&
    (maxRight ==> S < right && MaxAtRight(s, left, right))
  }

  /** Whether the two inner scans can advance: the measure of the partition
      loop falls by one notch when they cannot. */
  function Stuck(s: seq<int>, i: int, j: int, S: int): bool
    requires 0 <= i < |s| && 0 <= j < |s| && 0 <= S < |s|
  {
    !((i < S && s[i] <= s[S]) || (j > S && s[j] >= s[S]))
  }

  /** Where the pivot index goes when cells `i` and `j` are exchanged: the
      cell that then holds what cell `S` held before. */
  function FollowPivot(i: int, j: int, S: int): (t: int)
    ensures t == i || t == j || t == S
    ensures forall s: seq<int> ::
      0 <= i < |s| && 0 <= j < |s| && 0 <= S < |s| ==> Exchanged(s, i, j)[t] == s[S]
  {
    if i == S then j else if j == S then i else S
  }

  /** Rearranging inside a range keeps `Permuted`. */
  lemma PermutedTrans(s: seq<int>, t: seq<int>, u: seq<int>, lo: int, hi: int)
    requires Permuted(s, t, lo, hi) && Permuted(t, u, lo, hi)
    ensures Permuted(s, u, lo, hi)
  {
  }

  /** A rearrangement of a sub-range is a rearrangement of any range around
      it. */
  lemma PermutedWiden(s: seq<int>, t: seq<int>, lo: int, hi: int, lo': int, hi': int)
    requires Permuted(s, t, lo', hi') && 0 <= lo <= lo' && hi' <= hi <= |s|
    ensures Permuted(s, t, lo, hi)
  {
    assert s[..lo] == s[..lo'][..lo] && t[..lo] == t[..lo'][..lo];
    assert s[hi..] == s[hi'..][hi - hi'..] && t[hi..] == t[hi'..][hi - hi'..];
    assert s[lo..lo'] == s[..lo'][lo..] && t[lo..lo'] == t[..lo'][lo..];
    assert s[hi'..hi] == s[hi'..][..hi - hi'] && t[hi'..hi] == t[hi'..][..hi - hi'];
    assert s[lo..hi] == s[lo..lo'] + s[lo'..hi'] + s[hi'..hi];
    assert t[lo..hi] == t[lo..lo'] + t[lo'..hi'] + t[hi'..hi];
  }

  /** Exchanging two cells of a range is a rearrangement of the range. */
  lemma ExchangePermuted(s0: seq<int>, s: seq<int>, lo: int, hi: int, x: int, y: int)
    requires Permuted(s0, s, lo, hi) && lo <= x < hi && lo <= y < hi
    ensures Permuted(s0, Exchanged(s, x, y), lo, hi)
  {
    var t := Exchanged(s, x, y);
    assert t[..lo] == s[..lo] && t[hi..] == s[hi..];
    assert t[lo..hi] == Exchanged(s[lo..hi], x - lo, y - lo);
    assert Permuted(s, t, lo, hi);
    PermutedTrans(s0, s, t, lo, hi);
  }

  /** At the start of the partition of `left..right` (more than one cell) the
      invariant holds with both cursors at the ends and the pivot in the
      middle. */
  lemma PartitionStart(s: seq<int>, left: int, right: int)
    requires 0 <= left < right < |s|
    ensures PartitionInv(s, s, left, right, left, right, MidPivot(left, right),
                         s[MidPivot(left, right)], MaxAtRight(s, left, right))
  {
  }

  /** The exchange of the cells where both scans stopped keeps the invariant,
      with the pivot index following the pivot value, and lets at least one
      scan advance again. */
  lemma PartitionSwap(s0: seq<int>, s: seq<int>, left: int, right: int,
                      i: int, j: int, S: int, p: int, maxRight: bool)
    requires PartitionInv(s0, s, left, right, i, j, S, p, maxRight) && i < j
    requires i == S || s[i] > p
    requires j == S || s[j] < p
    ensures PartitionInv(s0, Exchanged(s, i, j), left, right, i, j, FollowPivot(i, j, S), p, maxRight)
    ensures !Stuck(Exchanged(s, i, j), i, j, FollowPivot(i, j, S))
  {
    var t := Exchanged(s, i, j);
    ExchangePermuted(s0, s, left, right + 1, i, j);
    assert t[left..i] == s[left..i];
    assert t[j + 1..right + 1] == s[j + 1..right + 1];
    if maxRight {
      assert j < right;
      assert forall k :: left <= k <= right ==> t[k] <= t[right] by {
        forall k | left <= k <= right
          ensures t[k] <= t[right]
        {
          assert t[k] == s[k] || t[k] == s[i] || t[k] == s[j];
        }
      }
    }
  }

  /** An inner scan from the left that passes a cell at most the pivot keeps
      the invariant. */
  lemma ScanLeft(s0: seq<int>, s: seq<int>, left: int, right: int,
                 i: int, j: int, S: int, p: int, maxRight: bool)
    requires PartitionInv(s0, s, left, right, i, j, S, p, maxRight) && i < S && s[i] <= p
    ensures PartitionInv(s0, s, left, right, i + 1, j, S, p, maxRight)
  {
    assert s[left..i + 1] == s[left..i] + [s[i]];
  }

  /** An inner scan from the right that passes a cell at least the pivot
      keeps the invariant. */
  lemma ScanRight(s0: seq<int>, s: seq<int>, left: int, right: int,
                  i: int, j: int, S: int, p: int, maxRight: bool)
    requires PartitionInv(s0, s, left, right, i, j, S, p, maxRight) && j > S && s[j] >= p
    ensures PartitionInv(s0, s, left, right, i, j - 1, S, p, maxRight)
  {
    assert s[j..right + 1] == [s[j]] + s[j + 1..right + 1];
  }

  /** When the cursors meet, the pivot splits the range. */
  lemma PartitionEnd(s0: seq<int>, s: seq<int>, left: int, right: int,
                     i: int, j: int, S: int, p: int, maxRight: bool)
    requires PartitionInv(s0, s, left, right, i, j, S, p, maxRight) && i >= j
    ensures i == S == j && Split(s, left, S, right)
    ensures maxRight ==> S < right
  {
  }

  /** A pivot split at the last cell leaves a largest element there, so the
      call that sorts `left..S` repeats the range one notch lower. */
  lemma SplitAtRight(s: seq<int>, left: int, right: int)
    requires Split(s, left, right, right)
    ensures MaxAtRight(s, left, right)
  {
    assert forall k :: left <= k < right ==> s[k] == s[left..right][k - left];
  }

  /** A range of at most one cell is sorted, and leaving it alone rearranges
      it. */
  lemma TrivialRange(s: seq<int>, lo: int, hi: int)
    requires 0 <= lo <= hi + 1 <= |s| && lo >= hi
    ensures Permuted(s, s, lo, hi + 1) && Sorted(s[lo..hi + 1])
  {
  }

  /** Two ascending halves separated by `p` make an ascending whole. */
  lemma SortedJoin(s: seq<int>, lo: int, mid: int, hi: int, p: int)
    requires 0 <= lo <= mid <= hi <= |s|
    requires Sorted(s[lo..mid]) && Sorted(s[mid..hi])
    requires AllAtMost(s[lo..mid], p) && AllAtLeast(s[mid..hi], p)
    ensures Sorted(s[lo..hi])
  {
    var t := s[lo..hi];
    forall a, b | 0 <= a < b < |t|
      ensures t[a] <= t[b]
    {
      if b < mid - lo {
        assert t[a] == s[lo..mid][a] && t[b] == s[lo..mid][b];
      } else if a >= mid - lo {
        assert t[a] == s[mid..hi][a - (mid - lo)] && t[b] == s[mid..hi][b - (mid - lo)];
      } else {
        assert t[a] == s[lo..mid][a] && t[b] == s[mid..hi][b - (mid - lo)];
      }
    }
  }

  /** A rearrangement of `lo..hi-1` leaves every slice outside it alone. */
  lemma PermutedOutside(s: seq<int>, t: seq<int>, lo: int, hi: int, a: int, b: int)
    requires Permuted(s, t, lo, hi) && 0 <= a <= b <= |s| && (b <= lo || hi <= a)
    ensures s[a..b] == t[a..b]
  {
    forall k | a <= k < b
      ensures s[k] == t[k]
    {
      if b <= lo {
        assert s[k] == s[..lo][k] && t[k] == t[..lo][k];
      } else {
        assert s[k] == s[hi..][k - hi] && t[k] == t[hi..][k - hi];
      }
    }
  }

  /** Sorting `left..S` after the split keeps that part at most the pivot. */
  lemma LeftPartBounded(s1: seq<int>, s2: seq<int>, left: int, S: int, right: int)
    requires Split(s1, left, S, right) && Permuted(s1, s2, left, S + 1)
    ensures AllAtMost(s2[left..S + 1], s1[S])
  {
    assert s1[left..S + 1] == s1[left..S] + [s1[S]];
    BoundsPermuted(s2[left..S + 1], s1[left..S + 1], s1[S]);
  }

  /** Sorting `S+1..right` after the split keeps that part at least the
      pivot. */
  lemma RightPartBounded(s1: seq<int>, s2: seq<int>, s3: seq<int>, left: int, S: int, right: int)
    requires Split(s1, left, S, right) && Permuted(s1, s2, left, S + 1)
    requires Permuted(s2, s3, S + 1, right + 1)
    ensures AllAtLeast(s3[S + 1..right + 1], s1[S])
  {
    PermutedOutside(s1, s2, left, S + 1, S + 1, right + 1);
    BoundsPermuted(s3[S + 1..right + 1], s1[S + 1..right + 1], s1[S]);
  }

  /** After the split at `S` and the sorting of `left..S` and `S+1..right`,
      the whole range is ascending. */
  lemma CombineSorted(s1: seq<int>, s2: seq<int>, s3: seq<int>, left: int, S: int, right: int)
    requires Split(s1, left, S, right)
    requires Permuted(s1, s2, left, S + 1) && Sorted(s2[left..S + 1])
    requires Permuted(s2, s3, S + 1, right + 1) && Sorted(s3[S + 1..right + 1])
    ensures Sorted(s3[left..right + 1])
  {
    LeftPartBounded(s1, s2, left, S, right);
    PermutedOutside(s2, s3, S + 1, right + 1, left, S + 1);
    RightPartBounded(s1, s2, s3, left, S, right);
    SortedJoin(s3, left, S + 1, right + 1, s1[S]);
  }

  /** The partition and the two recursive calls together only rearrange
      `left..right`. */
  lemma CombinePermuted(s0: seq<int>, s1: seq<int>, s2: seq<int>, s3: seq<int>,
                        left: int, S: int, right: int)
    requires Permuted(s0, s1, left, right + 1) && left <= S <= right
    requires Permuted(s1, s2, left, S + 1) && Permuted(s2, s3, S + 1, right + 1)
    ensures Permuted(s0, s3, left, right + 1)
  {
    PermutedWiden(s1, s2, left, right + 1, left, S + 1);
    PermutedWiden(s2, s3, left, right + 1, S + 1, right + 1);
    PermutedTrans(s0, s1, s2, left, right + 1);
    PermutedTrans(s0, s2, s3, left, right + 1);
  }

  /** What the recursive sort needs after its three steps, whether or not
      each part was long enough to be sorted by a recursive call: the whole
      range is a sorted rearrangement. */
  lemma CombineParts(s0: seq<int>, s1: seq<int>, s2: seq<int>, s3: seq<int>,
                     left: int, S: int, right: int)
    requires Permuted(s0, s1, left, right + 1) && Split(s1, left, S, right)
    requires left < S ==> Permuted(s1, s2, left, S + 1) && Sorted(s2[left..S + 1])
    requires left >= S ==> s2 == s1
    requires S + 1 < right ==> Permuted(s2, s3, S + 1, right + 1) && Sorted(s3[S + 1..right + 1])
    requires S + 1 >= right ==> s3 == s2
    ensures Permuted(s0, s3, left, right + 1) && Sorted(s3[left..right + 1])
  {
    if left >= S {
      TrivialRange(s2, left, S);
    }
    if S + 1 >= right {
      TrivialRange(s3, S + 1, right);
    }
    CombineSorted(s1, s2, s3, left, S, right);
    CombinePermuted(s0, s1, s2, s3, left, S, right);
  }
}

/** The partition sort. `recSort(left, right)` picks the middle cell's value as
    pivot, moves the two cursors toward each other exchanging cells on the
    wrong side, lets the pivot index follow the pivot value whenever it is
    exchanged, and sorts `left..S` and `S+1..right` recursively. */
module RecursiveSorter {
  import opened Sorter
  import opened RecursivePartition

  class RecursiveSorter {
    /** The array being sorted; null until the first call of `DoSorting`. */
    var data: array?<int>

    constructor ()
      ensures data == null
    {
      data := null;
    }

    /** Sorts `input` in place and returns it; an absent array gives a fresh
        empty one. */
    method DoSorting(input: array?<int>) returns (r: array<int>)
      modifies this, input
      ensures data == input
      ensures input == null ==> fresh(r) && r.Length == 0
      ensures input != null ==> r == input && Sorted(r[..]) && multiset(r[..]) == multiset(old(input[..]))
    {
      data := input;
      if CheckNull(data) {
        return new int[0];
      }
      ghost var s0 := data[..];
      RecSort(0, data.Length - 1);
      if 0 < data.Length - 1 {
        assert data[0..data.Length] == data[..] && s0[0..data.Length] == s0;
      }
      return data;
    }

    /** The loop of `recSort` that partitions `left..right` around the value
        of its middle cell and returns where that value ends: that cell holds
        the pivot value, nothing above it is larger on the left and nothing
        below it is smaller on the right. */
    method Partition(left: int, right: int) returns (S: int)
      requires data != null && 0 <= left < right < data.Length
      modifies data
      ensures left <= S <= right
      ensures data[S] == old(data[MidPivot(left, right)])
      ensures Permuted(old(data[..]), data[..], left, right + 1)
      ensures Split(data[..], left, S, right)
      ensures MaxAtRight(old(data[..]), left, right) ==> S < right
    {
      ghost var s0 := data[..];
      var i := left;
      var j := right;
      S := MidPivot(i, j);
      ghost var p := data[S];
      ghost var maxRight := MaxAtRight(s0, left, right);
      PartitionStart(s0, left, right);
      while i < j
        invariant PartitionInv(s0, data[..], left, right, i, j, S, p, maxRight)
        decreases j - i, if Stuck(data[..], i, j, S) then 1 else 0
      {
        ghost var i0, j0, sh := i, j, data[..];
        while data[i] <= data[S] && i < S
          invariant PartitionInv(s0, data[..], left, right, i, j, S, p, maxRight)
          invariant i0 <= i && data[..] == sh
          decreases S - i
        {
          ScanLeft(s0, data[..], left, right, i, j, S, p, maxRight);
          i := i + 1;
        }
        while data[j] >= data[S] && j > S
          invariant PartitionInv(s0, data[..], left, right, i, j, S, p, maxRight)
          invariant i == S || data[i] > p
          invariant i0 <= i && j <= j0 && data[..] == sh
          decreases j - S
        {
          ScanRight(s0, data[..], left, right, i, j, S, p, maxRight);
          j := j - 1;
        }
        assert i == i0 && j == j0 ==> Stuck(sh, i, j, S);
        if i < j {
          PartitionSwap(s0, data[..], left, right, i, j, S, p, maxRight);
          Swap(data, i, j);
          if i == S {
            S := j;
          } else if j == S {
            S := i;
          }
        }
      }
      PartitionEnd(s0, data[..], left, right, i, j, S, p, maxRight);
    }

    /** Sorts cells `left..right` in place; a range of at most one cell is
        left alone. */
    method RecSort(left: int, right: int)
      requires data != null
      requires left < right ==> 0 <= left && right < data.Length
      modifies data
      ensures left < right ==> Permuted(old(data[..]), data[..], left, right + 1) && Sorted(data[left..right + 1])
      ensures left >= right ==> data[..] == old(data[..])
      decreases right - left, if MaxAtRight(data[..], left, right) then 0 else 1
    {
      if left >= right {
        return;
      }
      ghost var s0 := data[..];
      var S := Partition(left, right);
      ghost var s1 := data[..];
      if S == right {
        SplitAtRight(s1, left, right);
      }
      RecSort(left, S);
      ghost var s2 := data[..];
      RecSort(S + 1, right);
      CombineParts(s0, s1, s2, data[..], left, S, right);
    }
  }
}
