# sorter: three in-place comparison sorts and a comparator adapter

This project models the Go package `sorter`. The package sorts any collection that offers the
`Sortable` capability: `Length()`, `Less(i, j)` and `Exchange(i, j)`. `Selection`, `Insertion` and
`Shell` each take a collection and a half-open range `[bgn, end)`, and work only by comparing and
exchanging cells. `multiKeySorter` adapts a slice and a `lesser` comparator to `Sortable`.
`By(lesser).Sort(slice)` builds such an adapter and runs `Shell` over `[0, len(slice))`.

## Layout

- `orders.dfy` (module `Orders`): the shared vocabulary.
  - `Swap` is the effect of one `Exchange`.
  - `PermIn(t, s, lo, hi)` says that `t` reorders `[lo, hi)` of `s` and leaves every other cell unchanged.
  - `Sorted(less, s, lo, hi)` is the package's notion of "sorted": there is no `k` with
    `less(s[k+1], s[k])`. `HSorted` is the same with a gap `h`.
  - `AgreeOn(s, t, lo, hi)` says that `s` and `t` hold the same element in every cell of `[lo, hi)`.
  - The comparator properties: `Irreflexive`, `Asymmetric`, `Transitive`, `StrictWeakOrder`. Each one takes
    the multiset of elements being sorted and quantifies only over its members.
- `sortspec.dfy` (module `SortSpec`): reference functions for every loop of the package, on sequences,
  together with the lemmas about them.
  - `GapSift` is the gapped "sift left" of one element and `GapPass` is a whole gapped pass.
    `Insertion` is the gap-1 pass `GapPass(less, s, bgn, end, 1, bgn)`. Each pass of `Shell` is
    `GapPass(less, s, 0, n, h, h)`. `SiftExchanges` and `PassExchanges` count the exchanges.
  - `RunEnd` is `Selection`'s inner scan and `SelectFrom` is its outer loop.
  - `InGapSequence` is the sequence 1, 4, 13, 40, …. `InitialGap` is the gap-growing loop.
    `ShellPasses` is the descending loop, `ShellSort(less, s, lo, hi)` is both loops over `[lo, hi)`, and
    `ShellModel` is `Shell` as written, which is `ShellSort` over `[0, end - bgn)`.
  - The `…Local` lemmas state that each routine reads only the cells of its range. If two inputs agree
    (`AgreeOn`) on `[lo, hi)`, the results agree there too, with the same exchange count. Together with
    `PermIn` this says that cells outside the range neither change nor influence the result.
- `sorter.dfy` (module `Sorter`): the routines in imperative form.
  - `MultiKeySorter` is a class over an `array<T>` (the slice) and a comparator. It has the
    functions `Length` and `Less` and the method `Exchange`.
  - `Selection`, `Insertion` and `Shell` are `while` loops that call `Less` and `Exchange`. Each
    is proved to compute its reference function.
  - `ScanRun` is Selection's inner loop and `SiftLeft` the inner loop of Insertion and of each Shell pass.
  - `HSortPass` is one Shell pass (sorter.go:114-118), `GrowGap` the gap-growing loop and `ShellRange` the two gap loops.
  - `By` is a datatype wrapping the comparator, and its method `Sort` is the adapter entry point.
  - `SelectionFixed` and `ShellFixed` are the corrected routines described under Findings.
- `scenarios.dfy` (module `Scenarios`): small concrete runs, evaluated by the verifier.

A ghost counter `MultiKeySorter.exchanges` counts the calls to `Exchange`, so that exchange counts can
be stated. It is not in the source. `MultiKeySorter.Length` and `MultiKeySorter.Less`
(sorter.go:28-34, 47-53) are defined by their bodies and need no contract. The reference functions
`GapSift`, `GapPass`, `RunEnd`, `SelectFrom`, `InitialGap`, `ShellPasses`, `ShellSort` and `ShellModel`
(sorter.go:69-75, 80-84, 109-120) are specified by the lemmas in the table.

Sortedness needs only that the comparator be asymmetric on the elements of the slice: the whole array,
not only the range [bgn, end). It is stated as
`Asymmetric(less, multiset(s)) ==> Sorted(…)`, so the permutation and "nothing else changes" results
hold for any comparator. The hypotheses mention only the elements, which every routine keeps, so the
element type is unrestricted and may hold references, as Go's `By(lesser).Sort` allows.
`Scenarios.SortBoxesScenario` sorts an array of objects. `SortedPairwise`
shows that under a strict weak order adjacent-pair sortedness gives the pairwise form.

Where the doc comments of sorter.go and the code disagree, the model follows the code:
- The comment "Selection sorts coll[bgn..end)" (sorter.go:67) does not hold. The inner scan stops at the
  end of a descending run instead of at the minimum of `[i, end)`: see Findings.
- The comment "Shell sorts coll[bgn..end)" (sorter.go:107) does not hold when `bgn > 0`. The passes
  index from 0 and sort `[0, end - bgn)`: see Findings.

The loop at sorter.go:109-112 grows the gap through 1, 4, 13, … and stops at the first member that is
at least `n/3`, where `n = end - bgn`, or at 1 when `n < 6`. For `n = 9` the first gap is 4. `InitialGap`
states this.

## Model

| member | source | states |
|---|---|---|
| Sorter.MultiKeySorter.constructor | src/sorter/sorter.go:60-63 | the adapter views exactly the caller's slice and comparator, with no exchange yet |
| Sorter.MultiKeySorter.Length | src/sorter/sorter.go:28-34 | no contract; defined as the length of the slice |
| Sorter.MultiKeySorter.Less | src/sorter/sorter.go:47-53 | no contract; defined as lesser(slice[i], slice[j]), for indices inside the slice |
| Orders.Swap | src/sorter/sorter.go:39-41 | the effect of one Exchange: cells i and j trade places and every other cell is unchanged |
| Sorter.MultiKeySorter.Exchange | src/sorter/sorter.go:36-45 | the new slice is the old one with cells i and j exchanged (also when i == j); one more exchange is counted; Go's panic on a nil interface cell is not modelled (see Left out) |
| Orders.SwapPermIn | src/sorter/sorter.go:36-45 | exchanging two cells of a range reorders that range and leaves every other cell unchanged |
| Sorter.Selection | src/sorter/sorter.go:67-76 | the slice becomes SelectFrom of the old one; [bgn, end) is reordered and nothing outside it changes; exactly end - bgn exchanges; a sorted range is left as it was |
| SortSpec.RunEnd | src/sorter/sorter.go:71-73 | the inner scan from min: its result r satisfies min <= r < end; RunEndIsRunEnd and RunEndUnique characterise it |
| SortSpec.SelectFrom | src/sorter/sorter.go:69-75 | Selection's outer loop as written: its ensures keep the length; SelectFromPermIn, SelectFromOnSorted and SelectionDoesNotSort specify it |
| Sorter.ScanRun | src/sorter/sorter.go:70-73 | the inner scan returns RunEnd from i: the end of the strictly decreasing run, not the minimum of [i, end) |
| SortSpec.RunEndIsRunEnd | src/sorter/sorter.go:71-73 | the scan's min is the end of the strictly decreasing run from i: each element up to it is less than its predecessor, and the next one is not |
| SortSpec.RunEndUnique | src/sorter/sorter.go:71-73 | conversely, any index with those run properties is the scan's min |
| SortSpec.SelectFromPermIn | src/sorter/sorter.go:69-75 | the outer loop, which exchanges i with min (i <= min < end), reorders [i, end) and changes nothing else |
| SortSpec.SelectFromOnSorted | src/sorter/sorter.go:69-75 | on a sorted range every min is i itself, so the result equals the input |
| SortSpec.SelectionFacts | src/sorter/sorter.go:68-76 | Selection reorders [bgn, end), leaves other cells unchanged, and leaves a sorted range unchanged |
| SortSpec.SelectionDoesNotSort | src/sorter/sorter.go:67-76 | on [5, 3, 1, 4, 2] Selection yields [1, 3, 2, 4, 5], which is not sorted |
| Sorter.Insertion | src/sorter/sorter.go:78-85 | the slice becomes the gap-1 pass of the old one; [bgn, end) is reordered and nothing outside it changes; it is sorted when lesser is asymmetric on the elements; a sorted range gets zero exchanges and stays as it was, for any comparator |
| Sorter.SiftLeft | src/sorter/sorter.go:81-83 | the inner loop moves the element at i left in steps of h: the slice becomes GapSift of the old one, with that sift's exchanges counted |
| SortSpec.GapSift | src/sorter/sorter.go:81-83 | the sift of one element, the inner loop of Insertion (and of each Shell pass at 115-117): its ensures keep the length; GapSiftPermIn, GapSiftSorts and InsertionSiftMoves specify it |
| SortSpec.GapPass | src/sorter/sorter.go:80-84 | a whole gapped pass, Insertion's loops (and each Shell pass at 114-118): its ensures keep the length; GapPassPermIn, GapPassSorts and GapPassOnHSorted specify it |
| SortSpec.GapSiftPermIn | src/sorter/sorter.go:81-83 | sifting only exchanges cells j and j - h inside [lo, hi), so it reorders that range and nothing else |
| SortSpec.GapPassPermIn | src/sorter/sorter.go:80-84 | a whole pass reorders [lo, hi) and leaves every other cell unchanged |
| SortSpec.GapSiftSorts | src/sorter/sorter.go:81-83 | sifting the element at i into a sorted [lo, i) leaves [lo, i + 1) sorted, when the sifted element is never in order both ways with an element to its left (which asymmetry gives) |
| SortSpec.GapPassSorts | src/sorter/sorter.go:80-84 | a gap-1 pass leaves [lo, hi) sorted, whatever the order of the input range, when less is asymmetric on the elements |
| SortSpec.GapPassOnHSorted | src/sorter/sorter.go:80-84 | on an h-sorted range a pass makes zero exchanges and returns its input, because it exchanges only on a strict Less |
| SortSpec.SiftPlace | src/sorter/sorter.go:81-83 | where a gap-1 sift of x over [lo, k) stops: every element of [p, k) is strictly greater than x, and p is lo or x is not less than the element before p |
| SortSpec.InsertionSiftMoves | src/sorter/sorter.go:80-84 | one step of Insertion exactly: the element at j lands at SiftPlace, the elements of [p, j) move up one cell, nothing else changes, and there are j - p exchanges. So it moves past only strictly greater elements and never exchanges two equivalent ones |
| SortSpec.InsertionFacts | src/sorter/sorter.go:79-85 | Insertion reorders [bgn, end) and leaves other cells unchanged; it sorts the range when less is asymmetric on the elements; it makes no exchange on a sorted range |
| SortSpec.InitialGap | src/sorter/sorter.go:109-112 | the grown gap is at least n / 3, the gap before it is below n / 3, and it stays in the sequence 1, 4, 13, … |
| Sorter.GrowGap | src/sorter/sorter.go:109-112 | the grown gap is InitialGap(n, 1): a member of 1, 4, 13, …, at least n / 3, with the gap before it below n / 3 |
| SortSpec.GapFromExponent | src/sorter/sorter.go:110-112 | every (3^k - 1) / 2 with k >= 1 is a gap of the sequence |
| SortSpec.GapHasExponent | src/sorter/sorter.go:110-112 | every gap of the sequence is (3^k - 1) / 2 for some k >= 1 |
| SortSpec.GapGrowShrink | src/sorter/sorter.go:109-119 | growing a gap to 3h + 1 and dividing by three returns h, so the descending passes revisit the same gaps |
| SortSpec.GapShrink | src/sorter/sorter.go:113-120 | h / 3 is 0 exactly when h is 1 and is otherwise a smaller gap: the last pass has gap 1 and the loop stops |
| Sorter.HSortPass | src/sorter/sorter.go:114-118 | one gapped pass computes GapPass and counts its exchanges |
| Sorter.ShellRange | src/sorter/sorter.go:109-120 | the gap loops compute ShellSort over [lo, hi): the passes from InitialGap(hi - lo, 1) down, with the exchanges counted |
| SortSpec.ShellPasses | src/sorter/sorter.go:113-120 | the descending gap loop: its ensures keep the length; ShellPassesPermIn, ShellPassesSorts and ShellPassesOnSorted specify it |
| SortSpec.ShellSort | src/sorter/sorter.go:108-121 | both gap loops over [lo, hi): its ensures keep the length; ShellSortFacts specifies it |
| SortSpec.ShellModel | src/sorter/sorter.go:108-121 | Shell(bgn, end) as written, which is ShellSort over [0, end - bgn): its ensures keep the length; ShellModelSortsPrefix and ShellIgnoresBgn specify it |
| SortSpec.ShellPassesPermIn | src/sorter/sorter.go:113-120 | the passes reorder [lo, hi) and leave every other cell unchanged |
| SortSpec.ShellPassesSorts | src/sorter/sorter.go:113-120 | from any gap of the sequence the passes end sorted when less is asymmetric on the elements, because the final gap-1 pass is an insertion sort |
| SortSpec.ShellPassesOnSorted | src/sorter/sorter.go:113-120 | under a strict weak order a sorted range is h-sorted for every h, so Shell makes no exchange on it |
| SortSpec.ShellSortFacts | src/sorter/sorter.go:108-121 | gap growth and passes over [lo, hi) reorder it and touch nothing else; they sort it when less is asymmetric on its elements; under a strict weak order they leave a sorted range alone with no exchange |
| SortSpec.ShellModelSortsPrefix | src/sorter/sorter.go:108-121 | Shell(bgn, end) as written reorders [0, end - bgn), whatever bgn is, and changes no other cell; it sorts that range when less is asymmetric on the elements; under a strict weak order it leaves a sorted range alone |
| Sorter.Shell | src/sorter/sorter.go:108-121 | the slice becomes ShellModel of the old one; [0, end - bgn) is reordered and nothing else changes; it is sorted when lesser is asymmetric on the elements; under a strict weak order a sorted range gets no exchange |
| SortSpec.ShellIgnoresBgn | src/sorter/sorter.go:114-116 | with bgn = 1, end = 3 on [2, 1, 0] Shell yields [1, 2, 0]: it sorts [0, 2), and [1, 3) stays unsorted |
| Orders.SwapAgree | src/sorter/sorter.go:36-45 | one exchange inside a range, applied to two slices that agree on that range, leaves them agreeing there |
| SortSpec.GapSiftLocal | src/sorter/sorter.go:81-83 | the sift compares only cells of [lo, hi): inputs that agree on [lo, hi) give results that agree there, after the same number of exchanges |
| SortSpec.GapPassLocal | src/sorter/sorter.go:80-84 | a gapped pass over [lo, hi) reads no cell outside it: inputs that agree on [lo, hi) give results and exchange counts that agree |
| SortSpec.InsertionLocal | src/sorter/sorter.go:79-85 | Insertion never reads outside [bgn, end): slices that agree on [bgn, end) end agreeing there, after the same number of exchanges |
| SortSpec.RunEndLocal | src/sorter/sorter.go:71-73 | the inner scan's result depends only on the cells of [min, end) |
| SortSpec.SelectFromLocal | src/sorter/sorter.go:69-75 | Selection's outer loop inside [lo, end) reads no cell outside it: inputs that agree on [lo, end) give results that agree there |
| SortSpec.SelectionLocal | src/sorter/sorter.go:68-76 | Selection never reads outside [bgn, end): slices that agree on [bgn, end) end agreeing there |
| SortSpec.ShellPassesLocal | src/sorter/sorter.go:113-120 | the descending passes over [lo, hi) read no cell outside it: results and exchange counts agree for inputs that agree on [lo, hi) |
| SortSpec.ShellSortLocal | src/sorter/sorter.go:108-121 | Shell reads no cell outside the range it works on, [0, end - bgn) as written: results and exchange counts agree for inputs that agree there |
| Sorter.By.Sort | src/sorter/sorter.go:58-65 | the slice becomes ShellModel over [0, Length) of its old contents, holds the same multiset of elements, and is sorted when lesser is asymmetric on them; any element type, references included, but no nil interface value (see Left out) |
| Orders.PermInRange | src/sorter/sorter.go:67-85 | a reordering of [lo, hi) that leaves the other cells alone keeps the multiset of [lo, hi) itself |
| Orders.SortedPairwise | src/sorter/sorter.go:16 | when not-less is transitive on the elements, as for a strict weak order, adjacent-pair sortedness means that no element is less than any element before it |
| Orders.SortedIsHSorted | src/sorter/sorter.go:16 | when not-less is transitive on the elements, a sorted range is h-sorted for every gap h |
| Sorter.SelectionFixed | src/sorter/sorter.go:67-76 | corrected Selection: [bgn, end) ends reordered, with end - bgn exchanges; it is sorted when less is irreflexive and transitive on the elements |
| Sorter.ScanMin | src/sorter/sorter.go:71-73 | the corrected inner scan over all of [i + 1, end): under an order on the cells, min is a minimum of [i, end) |
| Sorter.ShellFixed | src/sorter/sorter.go:107-121 | corrected Shell: the passes are offset by bgn, and [bgn, end) is reordered with nothing else changed; it is sorted when lesser is asymmetric on the elements |
| Scenarios.InsertionScenario | src/sorter/sorter.go:79-85 | Insertion of [5, 3, 1, 4, 2] over [0, 5) gives [1, 2, 3, 4, 5] |
| Scenarios.InsertionSubrangeScenario | src/sorter/sorter.go:79-85 | Insertion of [9, 8, 1, 2, 3] over [1, 4) gives [9, 1, 2, 8, 3] |
| Scenarios.ShellScenario | src/sorter/sorter.go:108-121 | Shell of [9, 8, …, 1] over [0, 9) gives [1, 2, …, 9] |
| Scenarios.SortByAgeOutcome | src/sorter/sorter.go:58-65 | Shell over [0, 3) on ages [30, 20, 25] gives ages [20, 25, 30] |
| Scenarios.SortByAgeScenario | src/sorter/sorter.go:58-65 | no contract; asserts that By(YoungerThan).Sort makes ages [30, 20, 25] sorted, as By.Sort's contract gives for a strict weak order, and exactly [20, 25, 30] |
| Scenarios.SortBoxesScenario | src/sorter/sorter.go:58-65 | no contract; asserts that By(KeyLess).Sort on an array of two objects with keys 2, 1 puts the key-1 object first, with no restriction on the element type |

## Left out

- The reflection checks and the `panic("passing a non-slice type")` paths (sorter.go:29, 33, 37, 44, 48, 52) are not modelled. The element type is a type parameter and the collection is always an array, so these failure paths cannot arise.
- Go's `Exchange` (sorter.go:39-41) panics when a cell holds a nil interface value, as in a `[]interface{}` or `[]error` slice. `reflect.ValueOf` of a nil interface is the zero `Value`, and `Set` with it panics. When the nil is at i, cell i has already received slice[j], so the slice is left with one element duplicated and the nil lost: for example `By(nilFirst).Sort([]interface{}{1, nil})` calls `Exchange(1, 0)` and leaves `[1, 1]`. The model's `Exchange` always succeeds, and "any element type" below means a type without such a nil value, or a slice holding none.
- The `Sortable` interface (sorter.go:14-18) is not a separate type. Its only implementation, `multiKeySorter`, is the class the routines take.
- The commented-out Shell prototype (sorter.go:87-104) is not modelled, because it is not live code.
- Running time and comparison counts are not modelled. Exchange counts are stated through a ghost counter.
- The routines do not validate `bgn` and `end`, so the model states the ranges as preconditions. `Selection` and `Insertion` need `0 <= bgn <= end <= Length`. `Shell` needs `end - bgn <= Length`.
- Go's `int` is 64 bits wide, and the model uses unbounded integers. `3*h + 1` stays far below overflow for any slice that can exist. So does `end - bgn` for Selection and Insertion, whose preconditions bound both arguments. Shell requires only `end - bgn <= Length`. The model therefore assumes that `end - bgn` does not wrap. With extreme arguments, such as `bgn` near the largest `int` and `end` near the smallest, Go would sort `[0, wrapped)` while the model does nothing.
- Stability of a whole Insertion run is not stated as a theorem. `InsertionSiftMoves` states each step of Insertion exactly: the element moves only past strictly greater elements, so no exchange involves two equivalent elements. For a Shell pass with gap h > 1, the definition of `GapSift`, to which `SiftLeft` is proved equal, exchanges only on a strict `Less`. No lemma states a characterisation for h > 1. A sorted range gets no exchange at all: from Insertion for any comparator (`InsertionFacts`), from Shell only when less is a strict weak order on the slice's elements (`ShellSortFacts`).
- The Go `lesser` is a `func(o1, o2 interface{}) bool`, which may panic or have side effects. The model takes a total, pure `(T, T) -> bool`, so it does not model a comparator that panics or changes state.
- Sorter.Selection: no sortedness postcondition, because the code does not sort (see Findings).

## Findings

| source | as written | input that shows it | evidently intended | confidence | as-written member | corrected member |
|---|---|---|---|---|---|---|
| src/sorter/sorter.go:71 | the scan `j < end && coll.Less(j, min)` stops at the first element that is not less than the current min, so min is the end of a decreasing run | `[5, 3, 1, 4, 2]`, bgn = 0, end = 5 gives `[1, 3, 2, 4, 5]` | scan all of `[i+1, end)` and keep the smallest, so that `coll[bgn..end)` ends sorted as the comment says | high; not executed | SortSpec.SelectionDoesNotSort | Sorter.SelectionFixed |
| src/sorter/sorter.go:114-116 | the passes index from 0 (`i := h`, `j >= h`), ignoring bgn | `[2, 1, 0]`, bgn = 1, end = 3 gives `[1, 2, 0]`: cell 0 changes and `[1, 3)` stays unsorted | offset the passes by bgn, so that `coll[bgn..end)` ends sorted as the comment says | high; not executed | SortSpec.ShellIgnoresBgn | Sorter.ShellFixed |

`By.Sort` calls Shell only with `bgn = 0`. There the two versions coincide, so `By.Sort` sorts its whole slice.
