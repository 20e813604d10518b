/** Top-down merge sort on copies: the input is split at half its length,
    both halves are sorted recursively and the results are merged into a new
    array with two cursors. */
module MergeSorter {
  import opened Sorter

  /** The two-cursor merge of `l` and `r`: the smaller head goes first, and on
      equal heads the head of `r` does. */
  function Merged(l: seq<int>, r: seq<int>): (m: seq<int>)
    ensures |m| == |l| + |r|
    decreases |l| + |r|
  {
    if l == [] then r
    else if r == [] then l
    else if l[0] < r[0] then [l[0]] + Merged(l[1..], r)
    else [r[0]] + Merged(l, r[1..])
  }

  /** The merge holds exactly the elements of both inputs. */
  lemma {:induction false} MergedPermutes(l: seq<int>, r: seq<int>)
    ensures multiset(Merged(l, r)) == multiset(l) + multiset(r)
    decreases |l| + |r|
  {
    if l != [] && r != [] {
      if l[0] < r[0] {
        MergedPermutes(l[1..], r);
        var m := Merged(l[1..], r);
        assert Merged(l, r) == [l[0]] + m;
        assert multiset([l[0]] + m) == multiset{l[0]} + multiset(m);
        assert l == [l[0]] + l[1..];
        assert multiset(l) == multiset{l[0]} + multiset(l[1..]);
      } else {
        MergedPermutes(l, r[1..]);
        var m := Merged(l, r[1..]);
        assert Merged(l, r) == [r[0]] + m;
        assert multiset([r[0]] + m) == multiset{r[0]} + multiset(m);
        assert r == [r[0]] + r[1..];
        assert multiset(r) == multiset{r[0]} + multiset(r[1..]);
      }
    }
  }

  /** A smallest element followed by an ascending sequence is ascending. */
  lemma SortedCons(x: int, s: seq<int>)
    requires Sorted(s) && AllAtLeast(s, x)
    ensures Sorted([x] + s)
  {
    var t := [x] + s;
    forall a, b | 0 <= a < b < |t|
      ensures t[a] <= t[b]
    {
      if a > 0 {
        assert t[a] == s[a - 1] && t[b] == s[b - 1];
      } else {
        assert t[b] == s[b - 1];
      }
    }
  }

  /** Merging two ascending sequences gives an ascending sequence. */
  lemma {:induction false} MergedSorted(l: seq<int>, r: seq<int>)
    requires Sorted(l) && Sorted(r)
    ensures Sorted(Merged(l, r))
    decreases |l| + |r|
  {
    if l != [] && r != [] {
      if l[0] < r[0] {
        MergedSorted(l[1..], r);
        MergedPermutes(l[1..], r);
        var rest := l[1..] + r;
        assert AllAtLeast(rest, l[0]) by {
          forall k | 0 <= k < |rest|
            ensures l[0] <= rest[k]
          {
            if k < |l| - 1 {
              assert rest[k] == l[k + 1];
            } else {
              assert rest[k] == r[k - |l| + 1];
            }
          }
        }
        BoundsPermuted(Merged(l[1..], r), rest, l[0]);
        SortedCons(l[0], Merged(l[1..], r));
      } else {
        MergedSorted(l, r[1..]);
        MergedPermutes(l, r[1..]);
        var rest := l + r[1..];
        assert AllAtLeast(rest, r[0]) by {
          forall k | 0 <= k < |rest|
            ensures r[0] <= rest[k]
          {
            if k < |l| {
              assert rest[k] == l[k];
            } else {
              assert rest[k] == r[k - |l| + 1];
            }
          }
        }
        BoundsPermuted(Merged(l, r[1..]), rest, r[0]);
        SortedCons(r[0], Merged(l, r[1..]));
      }
    }
  }

  /** A new array holding cells `from` to `to-1` of `a`, as the library's
      range copy gives. */
  method CopyOfRange(a: array<int>, from: int, to: int) returns (r: array<int>)
    requires 0 <= from <= to <= a.Length
    ensures fresh(r) && r[..] == a[from..to]
  {
    r := new int[to - from](k requires 0 <= k < to - from reads a => a[from + k]);
  }

  /** When the head of `l` is strictly smaller (or `r` is used up), the
      merge starts with it. */
  lemma MergedTakesLeft(l: seq<int>, r: seq<int>)
    requires l != [] && (r == [] || l[0] < r[0])
    ensures Merged(l, r) == [l[0]] + Merged(l[1..], r)
  {
    if r == [] {
      assert l == [l[0]] + l[1..];
    }
  }

  /** When the head of `r` is at most that of `l` (or `l` is used up), the
      merge starts with it. */
  lemma MergedTakesRight(l: seq<int>, r: seq<int>)
    requires r != [] && (l == [] || l[0] >= r[0])
    ensures Merged(l, r) == [r[0]] + Merged(l, r[1..])
  {
    if l == [] {
      assert r == [r[0]] + r[1..];
    }
  }

  /** Appending one element and then a sequence is appending both. */
  lemma AppendOne(done: seq<int>, x: int, m: seq<int>)
    ensures (done + [x]) + m == done + ([x] + m)
  {
  }

  /** Taking the element at the left cursor next keeps the merge of what is
      still unread the rest of the whole merge. */
  lemma TakeLeft(done: seq<int>, L: seq<int>, R: seq<int>, i1: int, i2: int)
    requires 0 <= i1 < |L| && 0 <= i2 <= |R| && (i2 == |R| || L[i1] < R[i2])
    requires done + Merged(L[i1..], R[i2..]) == Merged(L, R)
    ensures (done + [L[i1]]) + Merged(L[i1 + 1..], R[i2..]) == Merged(L, R)
  {
    var l, r := L[i1..], R[i2..];
    assert l[1..] == L[i1 + 1..];
    MergedTakesLeft(l, r);
    AppendOne(done, L[i1], Merged(l[1..], r));
  }

  /** Taking the element at the right cursor next keeps the merge of what is
      still unread the rest of the whole merge. */
  lemma TakeRight(done: seq<int>, L: seq<int>, R: seq<int>, i1: int, i2: int)
    requires 0 <= i1 <= |L| && 0 <= i2 < |R| && (i1 == |L| || L[i1] >= R[i2])
    requires done + Merged(L[i1..], R[i2..]) == Merged(L, R)
    ensures (done + [R[i2]]) + Merged(L[i1..], R[i2 + 1..]) == Merged(L, R)
  {
    var l, r := L[i1..], R[i2..];
    assert r[1..] == R[i2 + 1..];
    MergedTakesRight(l, r);
    AppendOne(done, R[i2], Merged(l, r[1..]));
  }

  /** Merges two arrays into a new one with two cursors; the smaller head is
      taken first, and the head of `rPart` on a tie. */
  method Merge(lPart: array<int>, rPart: array<int>) returns (sortedArr: array<int>)
    ensures fresh(sortedArr)
    ensures sortedArr[..] == Merged(lPart[..], rPart[..])
  {
    ghost var L, R := lPart[..], rPart[..];
    var n := lPart.Length + rPart.Length;
    sortedArr := new int[n];
    var i1 := 0;
    var i2 := 0;
    for i := 0 to n
      invariant 0 <= i1 <= |L| && 0 <= i2 <= |R| && i == i1 + i2
      invariant lPart[..] == L && rPart[..] == R
      invariant sortedArr[..i] + Merged(L[i1..], R[i2..]) == Merged(L, R)
    {
      ghost var done := sortedArr[..i];
      if i1 == lPart.Length {
        TakeRight(done, L, R, i1, i2);
        sortedArr[i] := rPart[i2];
        i2 := i2 + 1;
      } else if i2 == rPart.Length {
        TakeLeft(done, L, R, i1, i2);
        sortedArr[i] := lPart[i1];
        i1 := i1 + 1;
      } else {
        if lPart[i1] < rPart[i2] {
          TakeLeft(done, L, R, i1, i2);
          sortedArr[i] := lPart[i1];
          i1 := i1 + 1;
        } else {
          TakeRight(done, L, R, i1, i2);
          sortedArr[i] := rPart[i2];
          i2 := i2 + 1;
        }
      }
      assert sortedArr[..i + 1] == done + [sortedArr[i]];
    }
    assert sortedArr[..n] == sortedArr[..];
  }

  /** Sorts `data` onto a new array; an array shorter than two is returned
      itself. The input is never written. */
  method MergeSort(data: array<int>) returns (r: array<int>)
    ensures data.Length < 2 ==> r == data
    ensures data.Length >= 2 ==> fresh(r)
    ensures Sorted(r[..]) && multiset(r[..]) == multiset(data[..])
    decreases data.Length
  {
    if data.Length < 2 {
      return data;
    }
    var midIndex := data.Length / 2;
    var lHalf := CopyOfRange(data, 0, midIndex);
    var rHalf := CopyOfRange(data, midIndex, data.Length);
    ghost var s := data[..];
    assert s == lHalf[..] + rHalf[..];
    var lSorted := MergeSort(lHalf);
    var rSorted := MergeSort(rHalf);
    r := Merge(lSorted, rSorted);
    MergedSorted(lSorted[..], rSorted[..]);
    MergedPermutes(lSorted[..], rSorted[..]);
    assert multiset(r[..]) == multiset(s);
  }

  /** Sorts `data`; an absent array gives a fresh empty one. */
  method DoSorting(data: array?<int>) returns (r: array<int>)
    ensures data == null ==> fresh(r) && r.Length == 0
    ensures data != null && data.Length < 2 ==> r == data
    ensures data != null && data.Length >= 2 ==> fresh(r)
    ensures data != null ==> Sorted(r[..]) && multiset(r[..]) == multiset(data[..])
  {
    if CheckNull(data) {
      return new int[0];
    }
    r := MergeSort(data);
  }
}
