/**
  The package's routines in their imperative form. MultiKeySorter is the
  Length/Less/Exchange capability over a mutable slice (an array here) and a
  comparator; Selection, Insertion and Shell sort a range through that capability
  only, and By.Sort wraps a slice and a comparator and runs Shell over all of it.
  Each routine is proved to compute the reference function of module SortSpec, and
  what that function achieves is carried into its postconditions.
*/
module Sorter {
  import opened Orders
  import opened SortSpec

  /**
    The comparator adapter: it views the caller's slice and answers Length, Less
    and Exchange on it. The ghost counter exchanges is not in the source; it
    records how many times Exchange was called, so that exchange counts can be stated.
  */
  class MultiKeySorter<T> {
    const slice: array<T>
    const lesser: (T, T) -> bool
    ghost var exchanges: nat

    constructor (coll: array<T>, lesser: (T, T) -> bool)
      ensures slice == coll && this.lesser == lesser && exchanges == 0
    {
      slice := coll;
      this.lesser := lesser;
      exchanges := 0;
    }

    function Length(): int {
      slice.Length
    }

    function Less(i: int, j: int): bool
      requires 0 <= i < slice.Length && 0 <= j < slice.Length
      reads slice
    {
      lesser(slice[i], slice[j])
    }

    /** Exchanges the elements at i and j through a temporary (a no-op when i == j). */
    method Exchange(i: int, j: int)
      requires 0 <= i < slice.Length && 0 <= j < slice.Length
      modifies slice, this`exchanges
      ensures slice[..] == Swap(old(slice[..]), i, j)
      ensures exchanges == old(exchanges) + 1
    {
      var temp := slice[i];
      slice[i] := slice[j];
      slice[j] := temp;
      exchanges := exchanges + 1;
    }
  }

  /**
    Selection(coll, bgn, end) as written. Its inner loop stops at the first element
    that is not less than the current min, so min ends at the end of the strictly
    decreasing run that starts at i: the range is reordered but not, in general, sorted.
  */
  method Selection<T>(coll: MultiKeySorter<T>, bgn: int, end: int)
    requires 0 <= bgn <= end <= coll.slice.Length
    modifies coll.slice, coll`exchanges
    ensures coll.slice[..] == SelectFrom(coll.lesser, old(coll.slice[..]), bgn, end)
    ensures PermIn(coll.slice[..], old(coll.slice[..]), bgn, end)
    ensures coll.exchanges == old(coll.exchanges) + (end - bgn)
    ensures Sorted(coll.lesser, old(coll.slice[..]), bgn, end) ==> coll.slice[..] == old(coll.slice[..])
  {
    ghost var s0 := coll.slice[..];
    ghost var target := SelectFrom(coll.lesser, s0, bgn, end);
    var i := bgn;
    while i < end
      invariant bgn <= i <= end
      invariant SelectFrom(coll.lesser, coll.slice[..], i, end) == target
      invariant coll.exchanges == old(coll.exchanges) + (i - bgn)
    {
      var min := ScanRun(coll, i, end);
      coll.Exchange(i, min);
      i := i + 1;
    }
    assert coll.slice[..] == target;
    assert old(coll.slice[..]) == s0;
    SelectionFacts(coll.lesser, s0, bgn, end);
  }

  /**
    The inner loop of Selection: min advances from i while the next element is
    less than the one at min, so the scan stops at the end of the strictly
    descending run that starts at i, not at the minimum of [i, end).
  */
  method ScanRun<T>(coll: MultiKeySorter<T>, i: int, end: int) returns (min: int)
    requires 0 <= i < end <= coll.slice.Length
    ensures min == RunEnd(coll.lesser, coll.slice[..], i, end)
  {
    min := i;
    var j := i + 1;
    while j < end && coll.Less(j, min)
      invariant i <= min < end && j == min + 1
      invariant RunEnd(coll.lesser, coll.slice[..], min, end) == RunEnd(coll.lesser, coll.slice[..], i, end)
      decreases end - j
    {
      min := j;
      j := j + 1;
    }
  }

  /**
    The inner loop of Insertion and of each Shell pass: the element at i moves left
    in steps of h, exchanged with the element h before it, while it is at least h
    past lo and less than that element. With h = 1 and lo = bgn the guard
    j - lo >= h is Insertion's j > bgn.
  */
  method SiftLeft<T>(coll: MultiKeySorter<T>, lo: int, h: int, i: int)
    requires 0 <= lo <= i < coll.slice.Length && h >= 1
    modifies coll.slice, coll`exchanges
    ensures coll.slice[..] == GapSift(coll.lesser, old(coll.slice[..]), lo, h, i)
    ensures coll.exchanges == old(coll.exchanges) + SiftExchanges(coll.lesser, old(coll.slice[..]), lo, h, i)
  {
    ghost var less := coll.lesser;
    ghost var target := GapSift(less, coll.slice[..], lo, h, i);
    ghost var total := SiftExchanges(less, coll.slice[..], lo, h, i);
    var j := i;
    while j - lo >= h && coll.Less(j, j - h)
      invariant lo <= j <= i
      invariant GapSift(less, coll.slice[..], lo, h, j) == target
      invariant coll.exchanges + SiftExchanges(less, coll.slice[..], lo, h, j) == old(coll.exchanges) + total
      decreases j
    {
      coll.Exchange(j, j - h);
      j := j - h;
    }
  }

  /**
    Insertion(coll, bgn, end): every position i of [bgn, end) in turn is sifted left
    by adjacent exchanges while it is above bgn and less than its predecessor. This
    is the gap-1 pass GapPass(_, _, bgn, end, 1, bgn).
  */
  method Insertion<T>(coll: MultiKeySorter<T>, bgn: int, end: int)
    requires 0 <= bgn <= end <= coll.slice.Length
    modifies coll.slice, coll`exchanges
    ensures coll.slice[..] == GapPass(coll.lesser, old(coll.slice[..]), bgn, end, 1, bgn)
    ensures coll.exchanges == old(coll.exchanges) + PassExchanges(coll.lesser, old(coll.slice[..]), bgn, end, 1, bgn)
    ensures PermIn(coll.slice[..], old(coll.slice[..]), bgn, end)
    ensures Asymmetric(coll.lesser, multiset(old(coll.slice[..]))) ==> Sorted(coll.lesser, coll.slice[..], bgn, end)
    ensures Sorted(coll.lesser, old(coll.slice[..]), bgn, end) ==>
              coll.slice[..] == old(coll.slice[..]) && coll.exchanges == old(coll.exchanges)
  {
    ghost var s0 := coll.slice[..];
    ghost var less := coll.lesser;
    ghost var target := GapPass(less, s0, bgn, end, 1, bgn);
    ghost var total := PassExchanges(less, s0, bgn, end, 1, bgn);
    var i := bgn;
    while i < end
      invariant bgn <= i <= end
      invariant GapPass(less, coll.slice[..], bgn, end, 1, i) == target
      invariant coll.exchanges + PassExchanges(less, coll.slice[..], bgn, end, 1, i) == old(coll.exchanges) + total
    {
      SiftLeft(coll, bgn, 1, i);
      i := i + 1;
    }
    assert coll.slice[..] == target;
    assert old(coll.slice[..]) == s0;
    InsertionFacts(less, s0, bgn, end);
  }

  /**
    One pass of Shell with gap h over [lo, hi): every position from lo + h on is
    sifted left in steps of h.
  */
  method HSortPass<T>(coll: MultiKeySorter<T>, lo: int, hi: int, h: int)
    requires 0 <= lo && hi <= coll.slice.Length && h >= 1
    modifies coll.slice, coll`exchanges
    ensures coll.slice[..] == GapPass(coll.lesser, old(coll.slice[..]), lo, hi, h, lo + h)
    ensures coll.exchanges == old(coll.exchanges) + PassExchanges(coll.lesser, old(coll.slice[..]), lo, hi, h, lo + h)
  {
    ghost var less := coll.lesser;
    ghost var target := GapPass(less, coll.slice[..], lo, hi, h, lo + h);
    ghost var total := PassExchanges(less, coll.slice[..], lo, hi, h, lo + h);
    var i := lo + h;
    while i < hi
      invariant lo + h <= i
      invariant GapPass(less, coll.slice[..], lo, hi, h, i) == target
      invariant coll.exchanges + PassExchanges(less, coll.slice[..], lo, hi, h, i) == old(coll.exchanges) + total
    {
      SiftLeft(coll, lo, h, i);
      i := i + 1;
    }
  }

  /**
    Shell's gap-growing loop for a range of n cells: starting from 1, the gap
    becomes 3 * h + 1 while it is below n / 3. The result is the first member of
    the sequence 1, 4, 13, ... that reaches n / 3 (or 1): the one before it is below n / 3.
  */
  method GrowGap(n: int) returns (h: int)
    ensures h == InitialGap(n, 1)
    ensures InGapSequence(h) && h >= 1 && h >= n / 3
    ensures h == 1 || h / 3 < n / 3
  {
    h := 1;
    while h < n / 3
      invariant h >= 1 && InGapSequence(h)
      invariant InitialGap(n, h) == InitialGap(n, 1)
      decreases n - h
    {
      GapGrowShrink(h);
      h := 3 * h + 1;
    }
  }

  /**
    Shell sort of the positions [lo, hi): grow the gap from 1 while it is below
    (hi - lo) / 3, then run a pass for each gap, dividing it by three, until it is 0.
  */
  method ShellRange<T>(coll: MultiKeySorter<T>, lo: int, hi: int)
    requires 0 <= lo && hi <= coll.slice.Length
    modifies coll.slice, coll`exchanges
    ensures coll.slice[..] == ShellSort(coll.lesser, old(coll.slice[..]), lo, hi)
    ensures coll.exchanges == old(coll.exchanges) + ShellSortExchanges(coll.lesser, old(coll.slice[..]), lo, hi)
  {
    ghost var s0 := coll.slice[..];
    ghost var less := coll.lesser;
    var h := GrowGap(hi - lo);
    ghost var target := ShellPasses(less, s0, lo, hi, h);
    ghost var total := ShellExchanges(less, s0, lo, hi, h);
    while h >= 1
      invariant h == 0 || InGapSequence(h)
      invariant ShellPasses(less, coll.slice[..], lo, hi, h) == target
      invariant coll.exchanges + ShellExchanges(less, coll.slice[..], lo, hi, h) == old(coll.exchanges) + total
      decreases h
    {
      HSortPass(coll, lo, hi, h);
      GapShrink(h);
      h := h / 3;
    }
  }

  /**
    Shell(coll, bgn, end) as written: the gap is taken from end - bgn, but the
    passes index from 0, so it sorts the positions [0, end - bgn), not [bgn, end).
    For bgn == 0 the two agree.
  */
  method Shell<T>(coll: MultiKeySorter<T>, bgn: int, end: int)
    requires end - bgn <= coll.slice.Length
    modifies coll.slice, coll`exchanges
    ensures coll.slice[..] == ShellModel(coll.lesser, old(coll.slice[..]), bgn, end)
    ensures coll.exchanges == old(coll.exchanges) + ShellSortExchanges(coll.lesser, old(coll.slice[..]), 0, end - bgn)
    ensures PermIn(coll.slice[..], old(coll.slice[..]), 0, end - bgn)
    ensures Asymmetric(coll.lesser, multiset(old(coll.slice[..]))) ==> Sorted(coll.lesser, coll.slice[..], 0, end - bgn)
    ensures StrictWeakOrder(coll.lesser, multiset(old(coll.slice[..]))) && Sorted(coll.lesser, old(coll.slice[..]), 0, end - bgn) ==>
              coll.slice[..] == old(coll.slice[..]) && coll.exchanges == old(coll.exchanges)
  {
    ghost var s0 := coll.slice[..];
    ShellRange(coll, 0, end - bgn);
    ShellModelSortsPrefix(coll.lesser, s0, bgn, end);
  }

  /**
    Selection sort as its comment describes it: the inner loop scans all of
    [i + 1, end) and keeps the smallest element seen, so each exchange brings the
    minimum of [i, end) to i. This sorts the range for any strict partial order.
  */
  method SelectionFixed<T>(coll: MultiKeySorter<T>, bgn: int, end: int)
    requires 0 <= bgn <= end <= coll.slice.Length
    modifies coll.slice, coll`exchanges
    ensures PermIn(coll.slice[..], old(coll.slice[..]), bgn, end)
    ensures coll.exchanges == old(coll.exchanges) + (end - bgn)
    ensures Irreflexive(coll.lesser, multiset(old(coll.slice[..]))) && Transitive(coll.lesser, multiset(old(coll.slice[..]))) ==>
              Sorted(coll.lesser, coll.slice[..], bgn, end)
  {
    ghost var s0 := coll.slice[..];
    ghost var less := coll.lesser;
    ghost var order := Irreflexive(less, multiset(s0)) && Transitive(less, multiset(s0));
    var i := bgn;
    while i < end
      invariant bgn <= i <= end
      invariant PermIn(coll.slice[..], s0, bgn, end)
      invariant coll.exchanges == old(coll.exchanges) + (i - bgn)
      invariant order ==> forall p, k :: bgn <= p < i && p < k < end ==> !less(coll.slice[k], coll.slice[p])
    {
      if order {
        OrderIndices(less, multiset(s0), coll.slice[..]);
      }
      var min := ScanMin(coll, i, end);
      ghost var before := coll.slice[..];
      coll.Exchange(i, min);
      SwapPermIn(before, bgn, end, i, min);
      i := i + 1;
    }
  }

  /**
    The inner loop of SelectionFixed: scan all of [i + 1, end) and move min to every
    element less than the one at min. For an order it finds a minimum of [i, end).
  */
  method ScanMin<T>(coll: MultiKeySorter<T>, i: int, end: int) returns (min: int)
    requires 0 <= i < end <= coll.slice.Length
    ensures i <= min < end
    ensures StrictOrderOn(coll.lesser, coll.slice[..]) ==>
              forall k :: i <= k < end ==> !coll.lesser(coll.slice[k], coll.slice[min])
  {
    ghost var order := StrictOrderOn(coll.lesser, coll.slice[..]);
    min := i;
    var j := i + 1;
    while j < end
      invariant i <= min < j <= end
      invariant order ==> forall k :: i <= k < j ==> !coll.lesser(coll.slice[k], coll.slice[min])
    {
      if coll.Less(j, min) {
        min := j;
      }
      j := j + 1;
    }
  }

  /**
    Shell sort of [bgn, end) as its comment describes it: the passes are offset by
    bgn. It agrees with Shell when bgn == 0.
  */
  method ShellFixed<T>(coll: MultiKeySorter<T>, bgn: int, end: int)
    requires 0 <= bgn && end <= coll.slice.Length
    modifies coll.slice, coll`exchanges
    ensures coll.slice[..] == ShellSort(coll.lesser, old(coll.slice[..]), bgn, end)
    ensures PermIn(coll.slice[..], old(coll.slice[..]), bgn, end)
    ensures Asymmetric(coll.lesser, multiset(old(coll.slice[..]))) ==> Sorted(coll.lesser, coll.slice[..], bgn, end)
  {
    ghost var s0 := coll.slice[..];
    ShellRange(coll, bgn, end);
    ShellSortFacts(coll.lesser, s0, bgn, end);
  }

  /** By is a comparator; Sort sorts a whole slice by it, with Shell over [0, len). */
  datatype By<!T> = By(lesser: (T, T) -> bool)
  {
    method Sort(coll: array<T>)
      modifies coll
      ensures coll[..] == ShellModel(lesser, old(coll[..]), 0, coll.Length)
      ensures multiset(coll[..]) == multiset(old(coll[..]))
      ensures Asymmetric(lesser, multiset(old(coll[..]))) ==> Sorted(lesser, coll[..], 0, coll.Length)
    {
      var mks := new MultiKeySorter(coll, lesser);
      Shell(mks, 0, mks.Length());
      assert coll[..] == coll[0..coll.Length];
      assert old(coll[..]) == old(coll[..])[0..coll.Length];
    }
  }
}
