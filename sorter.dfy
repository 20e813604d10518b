/** What every sorting strategy shares: the meaning of "ascending", the null
    check that turns an absent array into an empty result, and the in-place
    exchange of two cells. */
module Sorter {

  /** Every element is at most every later one. */
  predicate Sorted(s: seq<int>) {
    forall a, b :: 0 <= a < b < |s| ==> s[a] <= s[b]
  }

  /** Every cell above `i` holds its final value: nothing before it is
      larger. */
  ghost predicate SettledAbove(s: seq<int>, i: int) {
    forall a, b :: 0 <= a < b < |s| && i < b ==> s[a] <= s[b]
  }

  /** Every cell below `i` holds its final value: nothing after it is
      smaller. */
  ghost predicate SettledBelow(s: seq<int>, i: int) {
    forall a, b :: 0 <= a < b < |s| && a < i ==> s[a] <= s[b]
  }

  /** `s` with cells `x` and `y` exchanged. */
  function Exchanged(s: seq<int>, x: int, y: int): seq<int>
    requires 0 <= x < |s| && 0 <= y < |s|
  {
    s[x := s[y]][y := s[x]]
  }

  /** Exchanging two cells keeps the elements. */
  lemma ExchangedPermutes(s: seq<int>, x: int, y: int)
    requires 0 <= x < |s| && 0 <= y < |s|
    ensures multiset(Exchanged(s, x, y)) == multiset(s)
  {
    var u := s[x := s[y]];
    assert multiset(u) == multiset(s) - multiset{s[x]} + multiset{s[y]};
    assert multiset(u[y := s[x]]) == multiset(u) - multiset{u[y]} + multiset{s[x]};
  }

  /** No element of `s` is below `x`. */
  ghost predicate AllAtLeast(s: seq<int>, x: int) {
    forall k :: 0 <= k < |s| ==> x <= s[k]
  }

  /** No element of `s` is above `x`. */
  ghost predicate AllAtMost(s: seq<int>, x: int) {
    forall k :: 0 <= k < |s| ==> s[k] <= x
  }

  /** A bound on every element holds for any rearrangement of the elements. */
  lemma BoundsPermuted(s: seq<int>, t: seq<int>, x: int)
    requires multiset(s) == multiset(t)
    ensures AllAtLeast(t, x) ==> AllAtLeast(s, x)
    ensures AllAtMost(t, x) ==> AllAtMost(s, x)
  {
    forall k | 0 <= k < |s|
      ensures exists m :: 0 <= m < |t| && t[m] == s[k]
    {
      assert s[k] in multiset(s);
    }
  }

  /** True exactly when no array was passed in. */
  function CheckNull(a: array?<int>): (isNull: bool)
    ensures isNull <==> a == null
  {
    a == null
  }

  /** Exchanges cells `x` and `y` of `a`; nothing else changes. */
  method Swap(a: array<int>, x: int, y: int)
    requires 0 <= x < a.Length && 0 <= y < a.Length
    modifies a
    ensures a[x] == old(a[y]) && a[y] == old(a[x])
    ensures forall k :: 0 <= k < a.Length && k != x && k != y ==> a[k] == old(a[k])
    ensures multiset(a[..]) == multiset(old(a[..]))
    ensures x == y ==> a[..] == old(a[..])
    ensures a[..] == Exchanged(old(a[..]), x, y)
  {
    var temp := a[x];
    a[x] := a[y];
    a[y] := temp;
  }

  /** Removing equal first elements from sequences with the same elements
      leaves sequences with the same elements. */
  lemma SameTails(s: seq<int>, t: seq<int>)
    requires s != [] && t != [] && s[0] == t[0] && multiset(s) == multiset(t)
    ensures multiset(s[1..]) == multiset(t[1..])
  {
    assert s == [s[0]] + s[1..] && t == [t[0]] + t[1..];
    assert multiset(s) == multiset{s[0]} + multiset(s[1..]);
    assert multiset(t) == multiset{t[0]} + multiset(t[1..]);
    forall z ensures multiset(s[1..])[z] == multiset(t[1..])[z] {
      assert multiset(s)[z] == multiset(t)[z];
    }
  }

  /** Two non-empty ascending sequences with the same elements start with the
      same (smallest) element. */
  lemma SortedHeadsEqual(s: seq<int>, t: seq<int>)
    requires s != [] && t != [] && Sorted(s) && Sorted(t) && multiset(s) == multiset(t)
    ensures s[0] == t[0]
  {
    assert s[0] in multiset(t) && t[0] in multiset(s);
    var k :| 0 <= k < |t| && t[k] == s[0];
    var m :| 0 <= m < |s| && s[m] == t[0];
    assert t[0] <= t[k] && s[0] <= s[m];
  }

  /** Two ascending sequences holding the same elements are equal: whichever
      strategy sorted an array, the result is the one the library sort gives. */
  lemma {:induction false} SortedPermutationsEqual(s: seq<int>, t: seq<int>)
    requires Sorted(s) && Sorted(t) && multiset(s) == multiset(t)
    ensures s == t
    decreases |s|
  {
    assert |s| == |multiset(s)| == |multiset(t)| == |t|;
    if s != [] {
      SortedHeadsEqual(s, t);
      SameTails(s, t);
      SortedPermutationsEqual(s[1..], t[1..]);
      assert s == [s[0]] + s[1..] && t == [t[0]] + t[1..];
    }
  }
}
