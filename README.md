# Sorting benchmark: sorters, array generators and step rounding

This project is a Dafny model of the algorithmic core of a small Java
benchmark that times several sorting strategies on generated arrays. It
covers three parts.

- **The sorting strategies.** Each strategy (`doSorting`) returns a fresh
  empty array for a null input. Otherwise it returns an ascending
  rearrangement of the input.
  - `Sorter` holds the shared null check and the in-place `swap`.
  - `BubbleSorter` is a template-method bubble sort. One loop skeleton
    drives two cursors through five hooks (`initPointers`, `nextI`, `nextJ`,
    `isSwapNeeded`, `swap`). `BubbleUpSorter` and `BubbleDownSorter`
    implement the hooks.
  - `SwapSorter` is selection sort.
  - `MergeSorter` is top-down merge sort on copies, with a two-cursor merge.
  - `RecursiveSorter` is a partition sort whose pivot index `S` follows the
    pivot value whenever a swap moves it.
- **The array generators** (`Fillers`). These produce `1..n` ascending,
  `n..1`, `1..n-1` followed by one random number, and a random
  rearrangement of `1..n` by a top-down Fisher–Yates shuffle.
- **The integer part of the size series** (`Analyzer.calcStepsOnInterval`).
  This is the argument guard and the rounding of each raw step to tens or
  hundreds.

Each Java class of the core has a Dafny module of the same name, with two
exceptions. `BubbleUpSorter` and `BubbleDownSorter` are folded into
`BubbleSorter`: their hooks are the `Up...` and `Down...` methods of its
class. `JavaSorter` is not modelled. Two further modules, `BubblePasses` and
`RecursivePartition`, have no Java counterpart. They hold the
sequence-level invariants of the bubble sort and the partition sort. Code that updates fields or arrays
in place is written as classes and methods over `array<int>`:

- the bubble sorter's cursors `i` and `j`;
- the partition sort's `data`;
- the generators' `length` and `array` (named `arr` here);
- the analyzer's `lengthSteps`.

Each such method is proved against a function on sequences: `Merged`,
`CompareExchange`, `Shuffled`, `Ascending`, `RoundStep`, or the invariant
predicates. What the source promises is proved about those functions as
lemmas.

Inputs that the model cannot compute are parameters:

- the value of `Math.random()` is the real `rand` in `[0, 1)`;
- the values of `Random.nextInt(i)` are the sequence `draws`, each below
  its bound;
- the raw steps that `(int) Math.exp(...)` produces are the sequence
  `rawSteps`.

## Model

| member | source | states |
|---|---|---|
| Sorter.CheckNull | src/main/sorters/Sorter.java:19-21 | true exactly when no array is passed |
| Sorter.Swap | src/main/sorters/Sorter.java:38-42 | cells `a` and `b` are exchanged, every other cell is unchanged, the elements are kept, and `swap(a, x, x)` changes nothing |
| Sorter.ExchangedPermutes | src/main/sorters/Sorter.java:38-42 | exchanging two cells keeps the multiset of elements |
| Sorter.SortedPermutationsEqual | src/test/main/sorters/SortersTest.java:24-47 | two ascending arrays with the same elements are equal, so a strategy's ascending rearrangement equals the library-sorted copy |
| BubblePasses.UpInnerStep | src/main/sorters/BubbleUpSorter.java:17-30 | one compare-and-exchange of `j`,`j+1` keeps the cells above `i` settled, brings the largest of the first `j+2` cells to `j+1` (to `i` at the end of the pass) and keeps the elements |
| BubblePasses.UpOuterStep | src/main/sorters/BubbleUpSorter.java:13-15 | after the pass for `i`, the largest element of `0..i` is at `i`, so everything from `i` on is settled when `nextI` yields `i-1` |
| BubblePasses.DownInnerStep | src/main/sorters/BubbleDownSorter.java:20-34 | one compare-and-exchange of `j-1`,`j` keeps the cells below `i` settled, brings the smallest element from `j-1` on to `j-1` (to `i` at the end of the pass) and keeps the elements |
| BubblePasses.DownOuterStep | src/main/sorters/BubbleDownSorter.java:13-18 | after the pass for `i`, the smallest element from `i` on is at `i`; when `nextI` yields -1 the array is ascending |
| BubblePasses.NextOuter | src/main/sorters/BubbleDownSorter.java:13-18 | the next outer value: one lower going up; going down one higher while it stays below `length-1`, else -1 |
| BubblePasses.NextInner | src/main/sorters/BubbleUpSorter.java:17-22 | while the pass goes on, the neighbouring inner value, strictly inside the unsettled region; otherwise -1 |
| BubblePasses.CompareExchange | src/main/sorters/BubbleSorter.java:21-24 | the designated adjacent pair ends in order and holds the same two values, every other cell is unchanged, and the elements are kept |
| BubblePasses.PassStart | src/main/sorters/BubbleSorter.java:18-19 | the first value `nextJ` yields in a pass starts the inner invariant |
| BubblePasses.InnerStep | src/main/sorters/BubbleSorter.java:20-24 | for either variant, the pair the inner cursor designates is in bounds, and one inner iteration keeps the inner invariant and the elements |
| BubblePasses.OuterStep | src/main/sorters/BubbleSorter.java:18-26 | for either variant, a finished pass settles one more cell |
| BubblePasses.OuterDone | src/main/sorters/BubbleSorter.java:18-28 | for either variant, when `nextI` has yielded -1 the array is ascending |
| BubbleSorter.BubbleSorter.UpInitPointers | src/main/sorters/BubbleUpSorter.java:8-11 | `i` becomes the length and `j` becomes -1 |
| BubbleSorter.BubbleSorter.UpNextI | src/main/sorters/BubbleUpSorter.java:13-15 | `i` decreases by one and is returned, so successive values are length-1, ..., 0, -1 |
| BubbleSorter.BubbleSorter.UpNextJ | src/main/sorters/BubbleUpSorter.java:17-22 | `j` increases by one while `j+1 < i`; otherwise `j` is reset to -1 and -1 is returned |
| BubbleSorter.BubbleSorter.UpIsSwapNeeded | src/main/sorters/BubbleUpSorter.java:24-26 | true exactly when `data[j] > data[j+1]` |
| BubbleSorter.BubbleSorter.UpSwap | src/main/sorters/BubbleUpSorter.java:28-30 | exchanges `data[j]` and `data[j+1]` and nothing else |
| BubbleSorter.BubbleSorter.DownInitPointers | src/main/sorters/BubbleDownSorter.java:8-11 | `i` becomes -1 and `j` becomes the length |
| BubbleSorter.BubbleSorter.DownNextI | src/main/sorters/BubbleDownSorter.java:13-18 | `i` increases by one while `i+1 < length-1`; otherwise it becomes -1 and is returned, so arrays shorter than two get no pass |
| BubbleSorter.BubbleSorter.DownNextJ | src/main/sorters/BubbleDownSorter.java:20-26 | `j` decreases by one while `j-1 > i`; otherwise `j` is reset to the length and -1 is returned |
| BubbleSorter.BubbleSorter.DownIsSwapNeeded | src/main/sorters/BubbleDownSorter.java:28-30 | true exactly when `data[j-1] > data[j]` |
| BubbleSorter.BubbleSorter.DownSwap | src/main/sorters/BubbleDownSorter.java:32-34 | exchanges `data[j-1]` and `data[j]` and nothing else |
| BubbleSorter.BubbleSorter.InitPointers | src/main/sorters/BubbleSorter.java:34 | the variant's `initPointers`, dispatched on the variant |
| BubbleSorter.BubbleSorter.NextI | src/main/sorters/BubbleSorter.java:41 | the variant's `nextI`: the next outer value, -1 at the end |
| BubbleSorter.BubbleSorter.NextJ | src/main/sorters/BubbleSorter.java:48 | the variant's `nextJ`: the next inner value, -1 at the end of a pass, with the cursor reset for the next pass |
| BubbleSorter.BubbleSorter.IsSwapNeeded | src/main/sorters/BubbleSorter.java:55 | the variant's `isSwapNeeded`: whether the designated adjacent pair is out of order |
| BubbleSorter.BubbleSorter.SwapPair | src/main/sorters/BubbleSorter.java:60 | the variant's `swap`: exchanges the designated adjacent pair |
| BubbleSorter.BubbleSorter.InnerIteration | src/main/sorters/BubbleSorter.java:21-24 | the array becomes the compare-exchange of the designated pair, and the cursor moves as `nextJ` says |
| BubbleSorter.BubbleSorter.Pass | src/main/sorters/BubbleSorter.java:19-25 | a pass ends with the inner invariant at -1, the cursor reset, and the elements kept |
| BubbleSorter.BubbleSorter.DoSorting | src/main/sorters/BubbleSorter.java:12-29 | null gives a fresh empty array and leaves the cursors alone (no hook runs); otherwise the input itself is returned, ascending, with the same elements, and the cursors end at `i == -1` and the variant's rest value |
| SwapSorter.SelectStep | src/main/sorters/SwapSorter.java:15-21 | exchanging a smallest element of `i..` into `i` settles `0..i` and keeps the elements |
| SwapSorter.SettledAllSorted | src/main/sorters/SwapSorter.java:14 | with every cell below `length-1` settled, the array is ascending |
| SwapSorter.DoSorting | src/main/sorters/SwapSorter.java:10-24 | null gives a fresh empty array; otherwise the input itself is returned, ascending, with the same elements, and unchanged when shorter than two |
| MergeSorter.Merged | src/main/sorters/MergeSorter.java:30-49 | the merge of two parts is as long as both together |
| MergeSorter.MergedPermutes | src/main/sorters/MergeSorter.java:30-49 | the merge holds exactly the elements of both parts |
| MergeSorter.SortedCons | src/main/sorters/MergeSorter.java:41-45 | a smallest element followed by an ascending sequence is ascending |
| MergeSorter.MergedSorted | src/main/sorters/MergeSorter.java:30-49 | merging two ascending parts gives an ascending result |
| MergeSorter.CopyOfRange | src/main/sorters/MergeSorter.java:25-26 | a new array holding exactly cells `from..to-1` |
| MergeSorter.MergedTakesLeft | src/main/sorters/MergeSorter.java:38-42 | when the left head is strictly smaller, or the right part is used up, the merge starts with the left head |
| MergeSorter.MergedTakesRight | src/main/sorters/MergeSorter.java:36-44 | when the right head is at most the left head (a tie included), or the left part is used up, the merge starts with the right head |
| MergeSorter.TakeLeft | src/main/sorters/MergeSorter.java:38-42 | taking from the left cursor keeps "written so far + merge of the rest = whole merge" |
| MergeSorter.TakeRight | src/main/sorters/MergeSorter.java:36-44 | taking from the right cursor keeps "written so far + merge of the rest = whole merge" |
| MergeSorter.Merge | src/main/sorters/MergeSorter.java:30-49 | a new array equal to the two-cursor merge of the two parts |
| MergeSorter.MergeSort | src/main/sorters/MergeSorter.java:19-28 | arrays shorter than two are returned themselves; longer ones give a new array; the result is ascending with the input's elements, and the input is not written |
| MergeSorter.DoSorting | src/main/sorters/MergeSorter.java:13-17 | null gives a fresh empty array; otherwise an ascending array with the input's elements |
| RecursivePartition.JavaDiv | src/main/sorters/RecursiveSorter.java:27 | Java's integer division as the Java Language Specification defines it: the magnitude of the quotient is the largest `n` with `b * n` at most the magnitude of the dividend, and the quotient is zero or has the dividend's sign |
| RecursivePartition.MidPivot | src/main/sorters/RecursiveSorter.java:27 | the initial pivot index lies inside `left..right`, and left of `right` when the range has more than one cell |
| RecursivePartition.MidPivotIsMidpoint | src/main/sorters/RecursiveSorter.java:27 | the initial pivot index is the lower midpoint `left + (right-left)/2` |
| RecursivePartition.FollowPivot | src/main/sorters/RecursiveSorter.java:32-37 | after cells `i` and `j` are exchanged, the new `S` is one of `i`, `j`, `S` and indexes the value the old `S` indexed |
| RecursivePartition.PermutedTrans | src/main/sorters/RecursiveSorter.java:21-42 | two rearrangements of a range make one |
| RecursivePartition.PermutedWiden | src/main/sorters/RecursiveSorter.java:40-41 | a rearrangement of a sub-range is a rearrangement of the whole range |
| RecursivePartition.ExchangePermuted | src/main/sorters/RecursiveSorter.java:32 | exchanging two cells of the range is a rearrangement of the range |
| RecursivePartition.PartitionStart | src/main/sorters/RecursiveSorter.java:25-27 | with the cursors at the ends and the pivot at the middle, the partition invariant holds |
| RecursivePartition.PartitionSwap | src/main/sorters/RecursiveSorter.java:31-37 | the exchange where both scans stopped keeps the invariant, `S` still indexes the pivot value, and a scan can advance again |
| RecursivePartition.ScanLeft | src/main/sorters/RecursiveSorter.java:29 | passing a cell at most the pivot keeps the invariant |
| RecursivePartition.ScanRight | src/main/sorters/RecursiveSorter.java:30 | passing a cell at least the pivot keeps the invariant |
| RecursivePartition.PartitionEnd | src/main/sorters/RecursiveSorter.java:28-39 | when the loop exits, `i == S == j`, and `S` splits the range into a part at most `data[S]` and a part at least it |
| RecursivePartition.SplitAtRight | src/main/sorters/RecursiveSorter.java:40 | a split at `right` leaves a largest element at `right` |
| RecursivePartition.TrivialRange | src/main/sorters/RecursiveSorter.java:22-24 | a range of at most one cell is ascending and left as it is |
| RecursivePartition.SortedJoin | src/main/sorters/RecursiveSorter.java:40-41 | two ascending parts separated by a pivot value form an ascending range |
| RecursivePartition.PermutedOutside | src/main/sorters/RecursiveSorter.java:40-41 | a rearrangement of one range leaves every cell outside it unchanged |
| RecursivePartition.LeftPartBounded | src/main/sorters/RecursiveSorter.java:40 | sorting `left..S` keeps that part at most the pivot |
| RecursivePartition.RightPartBounded | src/main/sorters/RecursiveSorter.java:41 | sorting `S+1..right` keeps that part at least the pivot |
| RecursivePartition.CombineSorted | src/main/sorters/RecursiveSorter.java:40-41 | after the split and both recursive calls, the whole range is ascending |
| RecursivePartition.CombinePermuted | src/main/sorters/RecursiveSorter.java:28-41 | the partition and both recursive calls together only rearrange `left..right` |
| RecursivePartition.CombineParts | src/main/sorters/RecursiveSorter.java:40-41 | whether or not each part needed a recursive call, the range ends ascending and rearranged |
| RecursiveSorter.RecursiveSorter.DoSorting | src/main/sorters/RecursiveSorter.java:12-19 | null gives a fresh empty array; otherwise the input itself is returned, ascending, with the same elements |
| RecursiveSorter.RecursiveSorter.Partition | src/main/sorters/RecursiveSorter.java:25-39 | only `left..right` is rearranged; the returned `S` holds the value that started in the middle cell and splits the range around it; `S < right` when a largest element started at `right` |
| RecursiveSorter.RecursiveSorter.RecSort | src/main/sorters/RecursiveSorter.java:21-42 | `left >= right` changes nothing; otherwise only `left..right` is rearranged and it ends ascending |
| Fillers.Ascending | src/main/fillers/Fillers.java:45-52 | the ascending run `1..n` has `n` cells |
| Fillers.Descending | src/main/fillers/Fillers.java:79-86 | the descending run `n..1` has `n` cells |
| Fillers.AscendingSorted | src/test/main/fillers/FillersTest.java:9-13 | `1..n` is ascending, each cell one more than the previous, and holds each of `1..n` exactly once and nothing else |
| Fillers.AscendingCounts | src/main/fillers/Fillers.java:45-52 | each value in `1..n` occurs once in the ascending run, every other value never |
| Fillers.DescendingPermutesAscending | src/test/main/fillers/FillersTest.java:23-27 | `n..1` is `1..n` read backwards: the same elements, each cell one less than the previous |
| Fillers.NearlyLast | src/main/fillers/Fillers.java:68 | the last element is the whole number at or just below `rand * (n-1) + 1`, as the `int` cast of that positive value gives |
| Fillers.NearlyLastInRange | src/main/fillers/Fillers.java:68 | the drawn last element lies in `1..n-1`, and is 1 for a single cell |
| Fillers.Shuffled | src/main/fillers/Fillers.java:99-101 | the shuffle from a bound keeps the length |
| Fillers.ShuffleStep | src/main/fillers/Fillers.java:99-101 | each draw is in bounds, and the rest of the shuffle continues from the exchanged array with the remaining draws |
| Fillers.ShuffledPermutes | src/main/fillers/Fillers.java:95-103 | the shuffle keeps the length and the elements |
| Fillers.ShuffledKeepsTop | src/main/fillers/Fillers.java:99-101 | the cells at and above the current bound are never touched again |
| Fillers.Fillers.GetSorted | src/main/fillers/Fillers.java:45-52 | a new array with `a[i] == i+1`, stored in the fields with its length |
| Fillers.Fillers.GetNearlySorted | src/main/fillers/Fillers.java:62-70 | a new array with `a[i] == i+1` below the last cell, and the drawn number in the last cell |
| Fillers.Fillers.GetReversed | src/main/fillers/Fillers.java:79-86 | a new array with `a[i] == n-i` |
| Fillers.Fillers.GetRandom | src/main/fillers/Fillers.java:95-103 | a new array equal to the shuffle of `1..n` with the given draws, holding exactly the numbers `1..n` |
| Analyzer.InvalidArguments | src/main/analyzer/Analyzer.java:118 | the guard passes exactly when `0 <= minLength <= maxLength`, `1 <= maxLength` and `1 <= stepsCount`, the negation of the documented list |
| Analyzer.RoundedSteps | src/main/analyzer/Analyzer.java:125-133 | one stored step per raw step: kept up to 100, a multiple of 10 up to 1000, a multiple of 100 above |
| Analyzer.RoundDiv | src/main/analyzer/Analyzer.java:128-129 | the quotient rounded to the nearest whole number, halves rounded up |
| Analyzer.RoundStep | src/main/analyzer/Analyzer.java:126-131 | a step up to 100 is kept; a step in `101..1000` becomes the nearest multiple of 10; a larger step becomes the nearest multiple of 100; halves round up |
| Analyzer.UniqueMultiple | src/main/analyzer/Analyzer.java:128-129 | a multiple of 10 (or 100) within a window of that width is the only one there |
| Analyzer.RoundStepMonotone | src/main/analyzer/Analyzer.java:126-131 | rounding never reverses the order of two steps |
| Analyzer.RoundStepIdempotent | src/main/analyzer/Analyzer.java:126-131 | a stored step is unchanged by a second rounding |
| Analyzer.RoundStepFitsInt | src/main/analyzer/Analyzer.java:128-129 | a step in the `int` range stays in that range, so the multiplication cannot overflow |
| Analyzer.RoundedStepsAscending | src/main/analyzer/Analyzer.java:100 | ascending raw steps give an ascending series, as the documentation promises |
| Analyzer.Analyzer.CalcStepsOnInterval | src/main/analyzer/Analyzer.java:117-135 | fails with "One or more arguments are invalid" exactly when `minLength < 0`, `maxLength < 1`, `stepsCount < 1` or `minLength > maxLength`, and then leaves `lengthSteps` alone; otherwise stores a new array of `stepsCount` rounded steps |

## Left out

- `JavaSorter` (src/main/sorters/JavaSorter.java) only calls the library
  sort. `Sorter.SortedPermutationsEqual` states what any ascending
  rearrangement has in common with its result.
- The private `swap` of the generators (src/main/fillers/Fillers.java:112-116)
  is the same exchange as `Sorter.swap`. The model uses `Sorter.Swap` for
  both.
- `Analyzer.startAnalysis`, the `Analyzer` constructor and the getters. They
  discover classes and methods by reflection, time with `System.nanoTime`
  and print. `ExcelExport`, `Controller` and `ReflectionUtils` are I/O and
  library calls and are not part of this model.
- The floating-point interpolation with `Math.log` and `Math.exp`
  (src/main/analyzer/Analyzer.java:123-126, 132). The truncated raw steps
  are an input of `CalcStepsOnInterval`. `RoundedStepsAscending` therefore
  takes "the raw steps are ascending" as a hypothesis.
- Analyzer.RoundDiv: assumes `Math.round(step / 100.0)` (and
  `step / 10.0`) equals the exact quotient rounded half up. Four facts make
  this hold for every `int` step:
  - the halfway points `k + 0.5` are exact doubles;
  - the division is correctly rounded;
  - an exact quotient that is not a halfway point lies at least 0.01 from
    one, far more than half an ulp below 2^31, so rounding cannot carry it
    across;
  - `Math.round` rounds an exact half up, as `RoundDiv` does.
- Fillers.NearlyLast: uses exact real arithmetic. In doubles,
  `Math.random() * (n - 1) + 1` can round up to `n` for a `Math.random()`
  just below 1 when `n - 1` is a power of two (n = 2, 3, 5, 9, 17, …). The
  model never yields `n`.
- The comment of `getNearlySorted` says the last number is chosen
  "from 1 to array size". The code draws from `1..n-1`, and the model
  follows the code.
- Fillers.Fillers.GetSorted, Fillers.Fillers.GetReversed,
  Fillers.Fillers.GetRandom: require `num >= 0`. A negative size throws
  `NegativeArraySizeException`, which is not modelled.
- Fillers.Fillers.GetNearlySorted: requires `num >= 1`. With `num == 0` the
  write to `array[length - 1]` throws, which is not modelled.
- The randomness sources are not modelled. The randomness is the caller's
  `rand` and `draws`. The model does not state that every rearrangement is
  equally likely.
- BubbleSorter.BubbleSorter.Pass and
  BubbleSorter.BubbleSorter.InnerIteration split the inline inner loop of
  `doSorting` into its own method, and one iteration of that loop into
  another. The statements and their order are those of the source.
- RecursiveSorter.RecursiveSorter.Partition is the partition loop of
  `recSort`, split into a method of its own. The statements are the
  source's.
- Inheritance is modelled without traits. The variant is the constant
  `dir`, and the skeleton's hooks dispatch on it. The two variants'
  private cursors are the same two fields `i` and `j`.
- The Java field `array` of `Fillers` is named `arr`, because `array` is a
  reserved word. It starts as `null`, as the Java field does.
- The fields of `Fillers` are static in Java, shared by every caller. The
  model keeps them in one `Fillers` object, and two generator objects would
  not share them.
- `int` overflow is not modelled in the sorters. Their index arithmetic
  (`i - (i - j) / 2`, `length / 2`, `i1 + i2`) stays within the array
  bounds.
