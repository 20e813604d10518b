/** The loop invariants of the template-method bubble sort, stated on the
    contents of the array, and the steps that carry them from one hook call
    to the next. */
module BubblePasses {
  import opened Sorter

  /** Which concrete variant supplies the hooks. */
  datatype Direction = Up | Down

  /** Upward variant at the head of the outer loop: `i` is what `nextI`
      returned, and every cell above it is settled. */
  ghost predicate UpOuter(s: seq<int>, i: int) {
    -1 <= i < |s| && SettledAbove(s, i)
  }

  /** Upward variant at the head of the inner loop of the pass for `i`: the
      largest element scanned so far sits at the inner cursor `j`, and once
      `nextJ` has returned -1 it sits at `i`. */
  ghost predicate UpInner(s: seq<int>, i: int, j: int) {
    0 <= i < |s| && SettledAbove(s, i) &&
    (j >= 0 ==> j < i && forall k :: 0 <= k <= j ==> s[k] <= s[j]) &&
    (j < 0 ==> forall k :: 0 <= k <= i ==> s[k] <= s[i])
  }

  /** Downward variant at the head of the outer loop: every cell below `i` is
      settled, and once `nextI` has returned -1 the whole array is sorted. */
  ghost predicate DownOuter(s: seq<int>, i: int) {
    if i >= 0 then i <= |s| - 2 && SettledBelow(s, i) else Sorted(s)
  }

  /** Downward variant at the head of the inner loop of the pass for `i`: the
      smallest element scanned so far sits at the inner cursor `j`, and once
      `nextJ` has returned -1 it sits at `i`. */
  ghost predicate DownInner(s: seq<int>, i: int, j: int) {
    0 <= i <= |s| - 2 && SettledBelow(s, i) &&
    (j >= 0 ==> i < j < |s| && forall k :: j <= k < |s| ==> s[j] <= s[k]) &&
    (j < 0 ==> forall k :: i <= k < |s| ==> s[i] <= s[k])
  }

  /** One step of an upward pass: `j` and `j+1` are put in order, so the
      largest element of the first `j+2` cells moves to `j+1`, and `nextJ`
      then yields `j+1` or, at the end of the pass, -1. */
  lemma UpInnerStep(s: seq<int>, t: seq<int>, swapped: bool, i: int, j: int)
    requires UpInner(s, i, j) && j >= 0
    requires swapped <==> s[j] > s[j + 1]
    requires t == if swapped then Exchanged(s, j, j + 1) else s
    ensures UpInner(t, i, if j + 1 < i then j + 1 else -1)
    ensures multiset(t) == multiset(s)
  {
    if swapped {
      ExchangedPermutes(s, j, j + 1);
    }
    assert |t| == |s|;
    assert forall k :: 0 <= k < |s| && k != j && k != j + 1 ==> t[k] == s[k];
    assert t[j] <= t[j + 1] && s[j] <= t[j + 1] && s[j + 1] <= t[j + 1];
    assert SettledAbove(t, i);
  }

  /** The pass for `i` has brought the largest element of the first `i+1`
      cells to `i`, so one more cell is settled when `nextI` yields `i-1`. */
  lemma UpOuterStep(s: seq<int>, i: int)
    requires UpInner(s, i, -1)
    ensures UpOuter(s, i - 1)
  {
  }

  /** One step of a downward pass: `j-1` and `j` are put in order, so the
      smallest element from `j-1` on moves to `j-1`, and `nextJ` then yields
      `j-1` or, at the end of the pass, -1. */
  lemma DownInnerStep(s: seq<int>, t: seq<int>, swapped: bool, i: int, j: int)
    requires DownInner(s, i, j) && j >= 0
    requires swapped <==> s[j - 1] > s[j]
    requires t == if swapped then Exchanged(s, j - 1, j) else s
    ensures DownInner(t, i, if j - 1 > i then j - 1 else -1)
    ensures multiset(t) == multiset(s)
  {
    if swapped {
      ExchangedPermutes(s, j - 1, j);
    }
    assert |t| == |s|;
    assert forall k :: 0 <= k < |s| && k != j - 1 && k != j ==> t[k] == s[k];
    assert t[j - 1] <= t[j] && t[j - 1] <= s[j - 1] && t[j - 1] <= s[j];
    assert SettledBelow(t, i);
  }

  /** The pass for `i` has brought the smallest element from `i` on to `i`,
      so one more cell is settled; when `nextI` yields -1 only the last cell
      is left and the array is sorted. */
  lemma DownOuterStep(s: seq<int>, i: int)
    requires DownInner(s, i, -1)
    ensures DownOuter(s, if i + 1 < |s| - 1 then i + 1 else -1)
  {
  }

  /** The lower of the two adjacent cells inner value `j` designates. */
  function Low(d: Direction, j: int): int {
    if d == Up then j else j - 1
  }

  /** The value the inner cursor is reset to between passes: -1 going up, the
      length going down. */
  function Rest(d: Direction, n: int): int {
    if d == Up then -1 else n
  }

  /** The outer value the variant's `nextI` yields after `i` on an array of
      length `n`; -1 ends the sort. */
  function NextOuter(d: Direction, i: int, n: int): (r: int)
    ensures d == Up ==> r == i - 1
    ensures d == Down ==> r == -1 || r == i + 1 < n - 1
    ensures d == Down && i + 1 < n - 1 ==> r == i + 1
  {
    if d == Up then i - 1
    else if i + 1 < n - 1 then i + 1 else -1
  }

  /** Whether the pass for `i` goes on after inner value `j`. */
  function Continues(d: Direction, i: int, j: int): bool {
    if d == Up then j + 1 < i else j - 1 > i
  }

  /** The inner value the variant's `nextJ` yields after `j` in the pass for
      `i`; -1 ends the pass. */
  function NextInner(d: Direction, i: int, j: int): (r: int)
    ensures !Continues(d, i, j) ==> r == -1
    ensures Continues(d, i, j) && d == Up ==> r == j + 1 && j < r < i
    ensures Continues(d, i, j) && d == Down ==> r == j - 1 && i < r < j
  {
    if !Continues(d, i, j) then -1
    else if d == Up then j + 1 else j - 1
  }

  /** The outer-loop invariant of whichever variant `d` is. */
  ghost predicate Outer(d: Direction, s: seq<int>, i: int) {
    if d == Up then UpOuter(s, i) else DownOuter(s, i)
  }

  /** The inner-loop invariant of whichever variant `d` is. */
  ghost predicate Inner(d: Direction, s: seq<int>, i: int, j: int) {
    if d == Up then UpInner(s, i, j) else DownInner(s, i, j)
  }

  /** The first value `nextJ` yields starts the inner invariant of a pass. */
  lemma PassStart(d: Direction, s: seq<int>, i: int)
    requires Outer(d, s, i) && i >= 0
    ensures Inner(d, s, i, NextInner(d, i, Rest(d, |s|)))
  {
  }

  /** The contents after one inner iteration at `j`: the designated adjacent
      pair is exchanged when it is out of order, and left alone otherwise. */
  function CompareExchange(d: Direction, s: seq<int>, j: int): (t: seq<int>)
    requires 0 <= Low(d, j) && Low(d, j) + 1 < |s|
    ensures |t| == |s| && multiset(t) == multiset(s)
    ensures t[Low(d, j)] <= t[Low(d, j) + 1]
    ensures {t[Low(d, j)], t[Low(d, j) + 1]} == {s[Low(d, j)], s[Low(d, j) + 1]}
    ensures forall k :: 0 <= k < |s| && k != Low(d, j) && k != Low(d, j) + 1 ==> t[k] == s[k]
  {
    var lo := Low(d, j);
    if s[lo] > s[lo + 1] then
      ExchangedPermutes(s, lo, lo + 1);
      Exchanged(s, lo, lo + 1)
    else s
  }

  /** One inner iteration of either variant keeps the inner invariant and the
      elements of the array. */
  lemma InnerStep(d: Direction, s: seq<int>, i: int, j: int)
    requires Inner(d, s, i, j) && j >= 0
    ensures 0 <= Low(d, j) && Low(d, j) + 1 < |s|
    ensures Inner(d, CompareExchange(d, s, j), i, NextInner(d, i, j))
    ensures multiset(CompareExchange(d, s, j)) == multiset(s)
  {
    var k := Low(d, j);
    var swapped := s[k] > s[k + 1];
    var t := CompareExchange(d, s, j);
    if d == Up {
      UpInnerStep(s, t, swapped, i, j);
    } else {
      DownInnerStep(s, t, swapped, i, j);
    }
  }

  /** A finished pass of either variant settles one more cell. */
  lemma OuterStep(d: Direction, s: seq<int>, i: int)
    requires Inner(d, s, i, -1)
    ensures Outer(d, s, NextOuter(d, i, |s|))
  {
    if d == Up {
      UpOuterStep(s, i);
    } else {
      DownOuterStep(s, i);
    }
  }

  /** When `nextI` has yielded -1 the array is sorted, in either variant. */
  lemma OuterDone(d: Direction, s: seq<int>)
    requires Outer(d, s, -1)
    ensures Sorted(s)
  {
  }
}

/** The template-method bubble sort. One loop skeleton (`DoSorting`) drives
    two cursors through five hooks; the upward-scanning and the
    downward-scanning variants differ only in those hooks. Without
    inheritance, the variant is the constant `dir`, each variant's hooks are
    methods of their own (`Up...`, `Down...`) and the hooks the skeleton calls
    dispatch on `dir`, as the virtual call does. */
module BubbleSorter {
  import opened Sorter
  import opened BubblePasses

  class BubbleSorter {
    const dir: Direction
    /** The array being sorted; null until the first call of `DoSorting`. */
    var data: array?<int>
    /** Outer cursor of the current variant. */
    var i: int
    /** Inner cursor of the current variant. */
    var j: int

    constructor (dir: Direction)
      ensures this.dir == dir && data == null
    {
      this.dir := dir;
      data := null;
      i, j := 0, 0;
    }

    // ---------------------------------------------------------------
    // Hooks of the upward-scanning variant

    method UpInitPointers()
      requires data != null
      modifies this`i, this`j
      ensures i == data.Length && j == -1
    {
      i := data.Length;
      j := -1;
    }

    /** Yields length-1, length-2, ..., 0, -1 on successive calls. */
    method UpNextI() returns (r: int)
      modifies this`i
      ensures i == old(i) - 1 && r == i
    {
      i := i - 1;
      r := i;
    }

    /** Yields 0, 1, ..., i-1, then -1 (and resets `j` to -1). */
    method UpNextJ() returns (r: int)
      modifies this`j
      ensures old(j) + 1 < i ==> j == old(j) + 1 && r == j
      ensures old(j) + 1 >= i ==> j == -1 && r == -1
    {
      if j + 1 < i {
        j := j + 1;
        r := j;
      } else {
        j := -1;
        r := j;
      }
    }

    function UpIsSwapNeeded(): (needed: bool)
      requires data != null && 0 <= j && j + 1 < data.Length
      reads this, data
      ensures needed <==> data[j] > data[j + 1]
    {
      data[j] > data[j + 1]
    }

    method UpSwap()
      requires data != null && 0 <= j && j + 1 < data.Length
      modifies data
      ensures data[..] == Exchanged(old(data[..]), j, j + 1)
      ensures multiset(data[..]) == multiset(old(data[..]))
    {
      Swap(data, j, j + 1);
    }

    // ---------------------------------------------------------------
    // Hooks of the downward-scanning variant

    method DownInitPointers()
      requires data != null
      modifies this`i, this`j
      ensures i == -1 && j == data.Length
    {
      i := -1;
      j := data.Length;
    }

    /** Yields 0, 1, ..., length-2, then -1. */
    method DownNextI() returns (r: int)
      requires data != null
      modifies this`i
      ensures old(i) + 1 < data.Length - 1 ==> i == old(i) + 1 && r == i
      ensures old(i) + 1 >= data.Length - 1 ==> i == -1 && r == -1
    {
      if i + 1 < data.Length - 1 {
        i := i + 1;
        r := i;
        return;
      }
      i := -1;
      r := i;
    }

    /** Yields length-1 down to i+1, then -1 (and resets `j` to the length). */
    method DownNextJ() returns (r: int)
      requires data != null
      modifies this`j
      ensures old(j) - 1 > i ==> j == old(j) - 1 && r == j
      ensures old(j) - 1 <= i ==> j == data.Length && r == -1
    {
      if j - 1 > i {
        j := j - 1;
        r := j;
        return;
      }
      j := data.Length;
      r := -1;
    }

    function DownIsSwapNeeded(): (needed: bool)
      requires data != null && 1 <= j < data.Length
      reads this, data
      ensures needed <==> data[j - 1] > data[j]
    {
      data[j - 1] > data[j]
    }

    method DownSwap()
      requires data != null && 1 <= j < data.Length
      modifies data
      ensures data[..] == Exchanged(old(data[..]), j - 1, j)
      ensures multiset(data[..]) == multiset(old(data[..]))
    {
      Swap(data, j - 1, j);
    }

    // ---------------------------------------------------------------
    // The hooks as the skeleton sees them

    /** The lower of the two adjacent cells the inner cursor designates. */
    ghost function Lo(): int
      reads this
    {
      Low(dir, j)
    }

    ghost predicate PairInBounds()
      reads this
    {
      data != null && 0 <= Lo() && Lo() + 1 < data.Length
    }

    method InitPointers()
      requires data != null
      modifies this`i, this`j
      ensures j == Rest(dir, data.Length)
      ensures i == if dir == Up then data.Length else -1
    {
      match dir
      case Up => UpInitPointers();
      case Down => DownInitPointers();
    }

    method NextI() returns (r: int)
      requires data != null
      modifies this`i
      ensures i == NextOuter(dir, old(i), data.Length) && r == i
    {
      match dir
      case Up => r := UpNextI();
      case Down => r := DownNextI();
    }

    method NextJ() returns (r: int)
      requires data != null
      modifies this`j
      ensures r == NextInner(dir, i, old(j))
      ensures j == if Continues(dir, i, old(j)) then r else Rest(dir, data.Length)
    {
      match dir
      case Up => r := UpNextJ();
      case Down => r := DownNextJ();
    }

    function IsSwapNeeded(): (needed: bool)
      requires PairInBounds()
      reads this, data
      ensures needed <==> data[Low(dir, j)] > data[Low(dir, j) + 1]
    {
      match dir
      case Up => UpIsSwapNeeded()
      case Down => DownIsSwapNeeded()
    }

    method SwapPair()
      requires PairInBounds()
      modifies data
      ensures data[..] == Exchanged(old(data[..]), Low(dir, j), Low(dir, j) + 1)
      ensures multiset(data[..]) == multiset(old(data[..]))
    {
      match dir
      case Up => UpSwap();
      case Down => DownSwap();
    }

    // ---------------------------------------------------------------
    // The skeleton

    /** One iteration of the inner loop of the skeleton: the pair the inner
        cursor designates is exchanged when `isSwapNeeded` reports it out of
        order, and `nextJ` moves the cursor on. */
    method InnerIteration(ghost i: int, ghost j: int) returns (next: int)
      requires data != null && this.i == i && this.j == j && PairInBounds()
      modifies this`j, data
      ensures data[..] == CompareExchange(dir, old(data[..]), j)
      ensures next == NextInner(dir, i, j)
      ensures this.j == if Continues(dir, i, j) then next else Rest(dir, data.Length)
    {
      ghost var s0 := data[..];
      var swapNeeded := IsSwapNeeded();
      if swapNeeded {
        SwapPair();
      }
      assert data[..] == CompareExchange(dir, s0, j);
      next := NextJ();
    }

    /** One pass of the inner loop of the skeleton for outer value `i`:
        `nextJ` walks the unsorted region, and each adjacent pair that
        `isSwapNeeded` reports out of order is exchanged. */
    method Pass(ghost i: int)
      requires data != null && this.i == i && i >= 0
      requires j == Rest(dir, data.Length) && Outer(dir, data[..], i)
      modifies this`j, data
      ensures j == Rest(dir, data.Length) && Inner(dir, data[..], i, -1)
      ensures multiset(data[..]) == multiset(old(data[..]))
    {
      PassStart(dir, data[..], i);
      var j := NextJ();
      while j >= 0
        invariant j >= -1
        invariant this.j == if j == -1 then Rest(dir, data.Length) else j
        invariant Inner(dir, data[..], i, j)
        invariant multiset(data[..]) == multiset(old(data[..]))
        decreases if j == -1 then 0 else if dir == Up then i - j else j - i
      {
        InnerStep(dir, data[..], i, j);
        j := InnerIteration(i, j);
      }
    }

    /** Sorts `input` in place through the hooks and returns it; an absent
        array gives a fresh empty one without any hook being called. */
    method DoSorting(input: array?<int>) returns (r: array<int>)
      modifies this, input
      ensures data == input
      ensures input == null ==> fresh(r) && r.Length == 0 && i == old(i) && j == old(j)
      ensures input != null ==> r == input && Sorted(r[..]) && multiset(r[..]) == multiset(old(input[..]))
      ensures input != null ==> i == -1 && j == Rest(dir, input.Length)
    {
      data := input;
      if CheckNull(data) {
        return new int[0];
      }
      InitPointers();
      var i := NextI();
      while i >= 0
        invariant data == input && this.i == i && i >= -1
        invariant j == Rest(dir, data.Length) && Outer(dir, data[..], i)
        invariant multiset(data[..]) == multiset(old(input[..]))
        decreases if dir == Up then i + 1 else if i >= 0 then data.Length - i else 0
      {
        Pass(i);
        OuterStep(dir, data[..], i);
        i := NextI();
      }
      OuterDone(dir, data[..]);
      return data;
    }
  }
}
