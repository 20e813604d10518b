/** Selection sort: for each position in turn, the smallest element of the
    unsorted rest is found and exchanged into it. */
module SwapSorter {
  import opened Sorter

  /** `m` indexes a smallest element among cells `i` to `j-1` of `s`. */
  ghost predicate MinOfRange(s: seq<int>, i: int, j: int, m: int) {
    0 <= i <= m < j <= |s| && forall k :: i <= k < j ==> s[m] <= s[k]
  }

  /** Exchanging a smallest element of the unsorted rest into position `i`
      settles position `i`. */
  lemma SelectStep(s: seq<int>, i: int, m: int)
    requires SettledBelow(s, i) && MinOfRange(s, i, |s|, m)
    ensures SettledBelow(Exchanged(s, i, m), i + 1)
    ensures multiset(Exchanged(s, i, m)) == multiset(s)
  {
    var t := Exchanged(s, i, m);
    assert t[i] == s[m];
    assert forall k :: 0 <= k < |s| && k != i && k != m ==> t[k] == s[k];
    assert forall k :: i <= k < |s| ==> t[i] <= t[k];
    assert t == s[i := s[m]][m := s[i]];
  }

  /** With all but the last cell settled, the whole sequence is ascending. */
  lemma SettledAllSorted(s: seq<int>, i: int)
    requires SettledBelow(s, i) && i >= |s| - 1
    ensures Sorted(s)
  {
  }

  /** Sorts `data` in place and returns it; an absent array gives a fresh
      empty one. */
  method DoSorting(data: array?<int>) returns (r: array<int>)
    modifies data
    ensures data == null ==> fresh(r) && r.Length == 0
    ensures data != null ==> r == data && Sorted(r[..]) && multiset(r[..]) == multiset(old(data[..]))
    ensures data != null && data.Length < 2 ==> r[..] == old(data[..])
  {
    if CheckNull(data) {
      return new int[0];
    }
    var minElemIndex: int;
    var i := 0;
    while i < data.Length - 1
      invariant 0 <= i && (data.Length == 0 || i <= data.Length - 1)
      invariant SettledBelow(data[..], i)
      invariant multiset(data[..]) == multiset(old(data[..]))
      invariant data.Length < 2 ==> data[..] == old(data[..])
    {
      minElemIndex := i;
      for j := i + 1 to data.Length
        invariant MinOfRange(data[..], i, j, minElemIndex)
      {
        if data[j] < data[minElemIndex] {
          minElemIndex := j;
        }
      }
      SelectStep(data[..], i, minElemIndex);
      Swap(data, i, minElemIndex);
      i := i + 1;
    }
    SettledAllSorted(data[..], i);
    return data;
  }
}
