/** The array generators of the benchmark. Each one records the requested
    size in `length`, allocates the array, fills it and hands it back. The
    random choices are supplied by the caller: `rand` stands for the one
    value of `Math.random()` and `draws` for the successive values of
    `nextInt`. */
module Fillers {
  import opened Sorter

  /** `1, 2, ..., n`. */
  function Ascending(n: nat): (s: seq<int>)
    ensures |s| == n
  {
    seq(n, k => k + 1)
  }

  /** `n, n-1, ..., 1`. */
  function Descending(n: nat): (s: seq<int>)
    ensures |s| == n
  {
    seq(n, k => n - k)
  }

  /** The ascending run holds the whole numbers `1..n`, each once, in
      ascending order. */
  lemma AscendingSorted(n: nat)
    ensures Sorted(Ascending(n))
    ensures forall k :: 0 <= k < n - 1 ==> Ascending(n)[k] + 1 == Ascending(n)[k + 1]
    ensures forall v :: 1 <= v <= n ==> multiset(Ascending(n))[v] == 1
    ensures forall v :: v < 1 || n < v ==> multiset(Ascending(n))[v] == 0
  {
    AscendingCounts(n);
  }

  /** How often each value occurs in `1..n`. */
  lemma {:induction false} AscendingCounts(n: nat)
    ensures forall v :: multiset(Ascending(n))[v] == (if 1 <= v <= n then 1 else 0)
  {
    if n > 0 {
      AscendingCounts(n - 1);
      assert Ascending(n) == Ascending(n - 1) + [n];
    }
  }

  /** The descending run is the ascending run read backwards: the same
      numbers, in strictly descending order. */
  lemma {:induction false} DescendingPermutesAscending(n: nat)
    ensures forall k :: 0 <= k < n ==> Descending(n)[k] == Ascending(n)[n - 1 - k]
    ensures multiset(Descending(n)) == multiset(Ascending(n))
    ensures forall k :: 0 <= k < n - 1 ==> Descending(n)[k] - 1 == Descending(n)[k + 1]
    ensures forall a, b :: 0 <= a < b < n ==> Descending(n)[a] > Descending(n)[b]
  {
    if n > 0 {
      DescendingPermutesAscending(n - 1);
      assert Descending(n) == [n] + Descending(n - 1);
      assert Ascending(n) == Ascending(n - 1) + [n];
    }
  }

  /** The last element of the nearly sorted array: `Math.random()` scaled to
      `[1, n)` and truncated, that is, the whole number at or just below the
      scaled value. */
  function NearlyLast(n: int, rand: real): (r: int)
    ensures r as real <= rand * ((n - 1) as real) + 1.0 < r as real + 1.0
  {
    (rand * ((n - 1) as real) + 1.0).Floor
  }

  /** The last element lies between 1 and `n-1`, so it repeats one of the
      other elements; for a single cell it is 1. */
  lemma NearlyLastInRange(n: int, rand: real)
    requires n >= 1 && 0.0 <= rand < 1.0
    ensures 1 <= NearlyLast(n, rand) <= (if n == 1 then 1 else n - 1)
  {
    var m := (n - 1) as real;
    assert 0.0 <= rand * m;
    if n > 1 {
      assert rand * m < m by {
        assert (1.0 - rand) * m > 0.0;
      }
    } else {
      assert rand * m == 0.0;
    }
  }

  /** Whether `draws` can be the successive values of `nextInt(i)` for `i`
      from `n` down to 2: one value per exchange, each below its bound. */
  predicate DrawsFit(draws: seq<int>, n: int) {
    |draws| == (if n > 1 then n - 1 else 0) &&
    forall k :: 0 <= k < |draws| ==> 0 <= draws[k] < n - k
  }

  /** The shuffle from the top: for `i` from the given bound down to 2, cell
      `i-1` is exchanged with the cell the next draw picks below `i`. */
  function Shuffled(s: seq<int>, i: int, draws: seq<int>): (t: seq<int>)
    requires 0 <= i <= |s| && DrawsFit(draws, i)
    ensures |t| == |s|
    decreases i
  {
    if i <= 1 then s else Shuffled(Exchanged(s, i - 1, draws[0]), i - 1, draws[1..])
  }

  /** One exchange of the shuffle: the rest of the shuffle starts from the
      exchanged sequence with the remaining draws, which fit one bound
      lower. */
  lemma ShuffleStep(s: seq<int>, i: int, draws: seq<int>)
    requires 1 < i <= |s| && DrawsFit(draws, i)
    ensures 0 <= draws[0] < i && DrawsFit(draws[1..], i - 1)
    ensures Shuffled(s, i, draws) == Shuffled(Exchanged(s, i - 1, draws[0]), i - 1, draws[1..])
  {
  }

  /** The shuffle only rearranges the elements. */
  lemma {:induction false} ShuffledPermutes(s: seq<int>, i: int, draws: seq<int>)
    requires 0 <= i <= |s| && DrawsFit(draws, i)
    ensures |Shuffled(s, i, draws)| == |s|
    ensures multiset(Shuffled(s, i, draws)) == multiset(s)
    decreases i
  {
    if i > 1 {
      ExchangedPermutes(s, i - 1, draws[0]);
      ShuffledPermutes(Exchanged(s, i - 1, draws[0]), i - 1, draws[1..]);
    }
  }

  /** The cells at and above the bound are never touched by the shuffle. */
  lemma {:induction false} ShuffledKeepsTop(s: seq<int>, i: int, draws: seq<int>)
    requires 0 <= i <= |s| && DrawsFit(draws, i)
    ensures |Shuffled(s, i, draws)| == |s|
    ensures forall k :: i <= k < |s| ==> Shuffled(s, i, draws)[k] == s[k]
    decreases i
  {
    ShuffledPermutes(s, i, draws);
    if i > 1 {
      ShuffledKeepsTop(Exchanged(s, i - 1, draws[0]), i - 1, draws[1..]);
    }
  }

  /** The generators share the size of the last array and the array itself,
      as the class-wide fields do. */
  class Fillers {
    var length: int
    /** The Java field `array` (a reserved word here). */
    var arr: array?<int>

    /** The class-wide fields before any generator has run. */
    constructor ()
      ensures length == 0 && arr == null
    {
      length := 0;
      arr := null;
    }

    /** The numbers `1..num` in ascending order. */
    method GetSorted(num: int) returns (r: array<int>)
      requires num >= 0
      modifies this
      ensures fresh(r) && arr == r && length == num
      ensures r[..] == Ascending(num)
    {
      length := num;
      arr := new int[length];
      for i := 0 to length
        invariant length == num && arr != null && arr.Length == num && fresh(arr)
        invariant forall k :: 0 <= k < i ==> arr[k] == k + 1
      {
        arr[i] := i + 1;
      }
      return arr;
    }

    /** The numbers `1..num-1` in ascending order followed by one drawn
        number between 1 and `num-1`. */
    method GetNearlySorted(num: int, rand: real) returns (r: array<int>)
      requires num >= 1 && 0.0 <= rand < 1.0
      modifies this
      ensures fresh(r) && arr == r && length == num
      ensures r[..] == Ascending(num - 1) + [NearlyLast(num, rand)]
    {
      length := num;
      arr := new int[length];
      for i := 0 to length - 1
        invariant length == num && arr != null && arr.Length == num && fresh(arr)
        invariant forall k :: 0 <= k < i ==> arr[k] == k + 1
      {
        arr[i] := i + 1;
      }
      arr[length - 1] := (rand * ((length - 1) as real) + 1.0).Floor;
      assert arr[num - 1] == NearlyLast(num, rand);
      assert arr[..] == Ascending(num - 1) + [arr[num - 1]];
      return arr;
    }

    /** The numbers `num` down to 1. */
    method GetReversed(num: int) returns (r: array<int>)
      requires num >= 0
      modifies this
      ensures fresh(r) && arr == r && length == num
      ensures r[..] == Descending(num)
    {
      length := num;
      arr := new int[length];
      for i := 0 to length
        invariant length == num && arr != null && arr.Length == num && fresh(arr)
        invariant forall k :: 0 <= k < i ==> arr[k] == num - k
      {
        arr[i] := length - i;
      }
      return arr;
    }

    /** The numbers `1..num` rearranged by the shuffle from the top, with
        `draws` standing for the values of `nextInt`. */
    method GetRandom(num: int, draws: seq<int>) returns (r: array<int>)
      requires num >= 0 && DrawsFit(draws, num)
      modifies this
      ensures fresh(r) && arr == r && length == num
      ensures r[..] == Shuffled(Ascending(num), num, draws)
      ensures multiset(r[..]) == multiset(Ascending(num))
    {
      length := num;
      arr := GetSorted(length);
      var i := arr.Length;
      while i > 1
        invariant length == num && arr != null && arr.Length == num && fresh(arr)
        invariant 0 <= i <= num && (num > 0 ==> i >= 1)
        invariant DrawsFit(draws[num - i..], i)
        invariant Shuffled(arr[..], i, draws[num - i..]) == Shuffled(Ascending(num), num, draws)
      {
        ghost var d := draws[num - i..];
        ShuffleStep(arr[..], i, d);
        Swap(arr, i - 1, draws[num - i]);
        assert d[1..] == draws[num - (i - 1)..];
        i := i - 1;
      }
      ShuffledPermutes(Ascending(num), num, draws);
      return arr;
    }
  }
}
