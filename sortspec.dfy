/**
  Reference definitions of what each loop of sorter.go computes, written as
  recursive functions over sequences, and the lemmas that state what those
  computations achieve. The imperative routines in module Sorter are proved
  to compute exactly these functions.
*/
module SortSpec {
  import opened Orders

  // ---------------------------------------------------------------------------
  // Gapped insertion: Insertion's loops (gap 1) and each pass of Shell (gap h).
  // ---------------------------------------------------------------------------

  /**
    The "sift left" of the element at j: while j is at least h positions past lo
    and the element at j is less than the one h positions before it, the two are
    exchanged and j moves h positions left. With h = 1 and lo = bgn this is
    Insertion's inner loop; with lo = 0 it is Shell's.
  */
  function GapSift<T>(less: (T, T) -> bool, s: seq<T>, lo: int, h: int, j: int): (r: seq<T>)
    requires 0 <= lo <= j < |s| && h >= 1
    ensures |r| == |s|
    decreases j
  {
    if j - lo >= h && less(s[j], s[j - h]) then GapSift(less, Swap(s, j, j - h), lo, h, j - h)
    else s
  }

  /** The number of exchanges GapSift performs. */
  function SiftExchanges<T>(less: (T, T) -> bool, s: seq<T>, lo: int, h: int, j: int): nat
    requires 0 <= lo <= j < |s| && h >= 1
    decreases j
  {
    if j - lo >= h && less(s[j], s[j - h]) then 1 + SiftExchanges(less, Swap(s, j, j - h), lo, h, j - h)
    else 0
  }

  /** Sift every position from i up to (not including) hi, in increasing order. */
  function GapPass<T>(less: (T, T) -> bool, s: seq<T>, lo: int, hi: int, h: int, i: int): (r: seq<T>)
    requires 0 <= lo <= i && hi <= |s| && h >= 1
    ensures |r| == |s|
    decreases hi - i
  {
    if i >= hi then s else GapPass(less, GapSift(less, s, lo, h, i), lo, hi, h, i + 1)
  }

  /** The number of exchanges GapPass performs. */
  function PassExchanges<T>(less: (T, T) -> bool, s: seq<T>, lo: int, hi: int, h: int, i: int): nat
    requires 0 <= lo <= i && hi <= |s| && h >= 1
    decreases hi - i
  {
    if i >= hi then 0
    else SiftExchanges(less, s, lo, h, i) + PassExchanges(less, GapSift(less, s, lo, h, i), lo, hi, h, i + 1)
  }

  /** A sift only exchanges cells h apart inside [lo, hi): it reorders that range and nothing else. */
  lemma {:induction false} GapSiftPermIn<T>(less: (T, T) -> bool, s: seq<T>, lo: int, hi: int, h: int, j: int)
    requires 0 <= lo <= j < hi <= |s| && h >= 1
    ensures PermIn(GapSift(less, s, lo, h, j), s, lo, hi)
    decreases j
  {
    if j - lo >= h && less(s[j], s[j - h]) {
      var t := Swap(s, j, j - h);
      var u := GapSift(less, t, lo, h, j - h);
      assert GapSift(less, s, lo, h, j) == u;
      SwapPermIn(s, lo, hi, j, j - h);
      GapSiftPermIn(less, t, lo, hi, h, j - h);
      PermInTrans(u, t, s, lo, hi);
    } else {
      assert GapSift(less, s, lo, h, j) == s;
    }
  }

  /** A pass reorders [lo, hi) and leaves every other cell unchanged. */
  lemma {:induction false} GapPassPermIn<T>(less: (T, T) -> bool, s: seq<T>, lo: int, hi: int, h: int, i: int)
    requires 0 <= lo <= i && hi <= |s| && h >= 1
    ensures PermIn(GapPass(less, s, lo, hi, h, i), s, lo, hi)
    decreases hi - i
  {
    if i < hi {
      var t := GapSift(less, s, lo, h, i);
      GapSiftPermIn(less, s, lo, hi, h, i);
      GapPassPermIn(less, t, lo, hi, h, i + 1);
      PermInTrans(GapPass(less, t, lo, hi, h, i + 1), t, s, lo, hi);
    }
  }

  /**
    What holds while the element that started at i is being sifted left to j
    (gap 1): every adjacent pair of [lo, i + 1) is in order except possibly the
    one that ends at j, and the neighbours of j are in order with each other.
  */
  ghost predicate SiftInv<T>(less: (T, T) -> bool, t: seq<T>, lo: int, i: int, j: int)
    requires 0 <= lo <= j <= i < |t|
  {
    && (forall k :: lo <= k < i && k != j - 1 ==> !less(t[k + 1], t[k]))
    && (lo < j < i ==> !less(t[j + 1], t[j - 1]))
  }

  /** One exchange of the sift keeps SiftInv, given that the exchanged pair is not also in order the other way. */
  lemma SiftInvStep<T>(less: (T, T) -> bool, t: seq<T>, lo: int, i: int, j: int)
    requires 0 <= lo < j <= i < |t| && SiftInv(less, t, lo, i, j)
    requires less(t[j], t[j - 1]) && !less(t[j - 1], t[j])
    ensures SiftInv(less, Swap(t, j, j - 1), lo, i, j - 1)
  {
    var u := Swap(t, j, j - 1);
    assert !less(u[j], u[j - 1]);
  }

  /**
    Sifting the element at i into a sorted [lo, i) (gap 1) leaves [lo, i + 1)
    sorted. The sifted element, now at j, must not be in order both ways with any
    element to its left; an asymmetric less gives that.
  */
  lemma {:induction false} GapSiftSorts<T>(less: (T, T) -> bool, t: seq<T>, lo: int, i: int, j: int)
    requires 0 <= lo <= j <= i < |t| && SiftInv(less, t, lo, i, j)
    requires forall k :: lo <= k < j && less(t[j], t[k]) ==> !less(t[k], t[j])
    ensures Sorted(less, GapSift(less, t, lo, 1, j), lo, i + 1)
    decreases j
  {
    if j - lo >= 1 && less(t[j], t[j - 1]) {
      SiftInvStep(less, t, lo, i, j);
      GapSiftSorts(less, Swap(t, j, j - 1), lo, i, j - 1);
    }
  }

  /** A gap-1 pass started at i over a range whose part [lo, i) is sorted leaves [lo, hi) sorted. */
  lemma {:induction false} GapPassSorts<T>(less: (T, T) -> bool, s: seq<T>, lo: int, hi: int, i: int)
    requires 0 <= lo <= i <= |s| && hi <= |s| && Asymmetric(less, multiset(s)) && Sorted(less, s, lo, i)
    ensures Sorted(less, GapPass(less, s, lo, hi, 1, i), lo, hi)
    decreases hi - i
  {
    if i < hi {
      AsymmetricIndices(less, s);
      GapSiftSorts(less, s, lo, i, i);
      GapSiftPermIn(less, s, lo, hi, 1, i);
      GapPassSorts(less, GapSift(less, s, lo, 1, i), lo, hi, i + 1);
    }
  }

  /** On an h-sorted range a pass makes no exchange and changes nothing. */
  lemma {:induction false} GapPassOnHSorted<T>(less: (T, T) -> bool, s: seq<T>, lo: int, hi: int, h: int, i: int)
    requires 0 <= lo <= i && hi <= |s| && h >= 1 && HSorted(less, s, lo, hi, h)
    ensures GapPass(less, s, lo, hi, h, i) == s
    ensures PassExchanges(less, s, lo, hi, h, i) == 0
    decreases hi - i
  {
    if i < hi {
      assert i - lo >= h ==> !less(s[i], s[i - h]);
      GapPassOnHSorted(less, s, lo, hi, h, i + 1);
    }
  }

  /**
    Where a gap-1 sift of x over s[lo..k) stops: the leftmost p such that every
    element of [p, k) is strictly greater than x. Either p is lo or x is not less
    than the element just before p, which includes an element equivalent to x.
  */
  function SiftPlace<T>(less: (T, T) -> bool, x: T, s: seq<T>, lo: int, k: int): (p: int)
    requires 0 <= lo <= k <= |s|
    ensures lo <= p <= k
    ensures p == lo || !less(x, s[p - 1])
    ensures forall i :: p <= i < k ==> less(x, s[i])
    decreases k
  {
    if k > lo && less(x, s[k - 1]) then SiftPlace(less, x, s, lo, k - 1) else k
  }

  /** SiftPlace over s[lo..k) depends only on those cells. */
  lemma {:induction false} SiftPlaceAgree<T>(less: (T, T) -> bool, x: T, s: seq<T>, t: seq<T>, lo: int, k: int)
    requires 0 <= lo <= k <= |s| && k <= |t|
    requires forall i :: lo <= i < k ==> s[i] == t[i]
    ensures SiftPlace(less, x, s, lo, k) == SiftPlace(less, x, t, lo, k)
    decreases k
  {
    if k > lo {
      SiftPlaceAgree(less, x, s, t, lo, k - 1);
    }
  }

  /**
    r is s with the element at j moved down to p and the elements of [p, j)
    moved up one cell each; every other cell is unchanged.
  */
  ghost predicate Shifted<T>(r: seq<T>, s: seq<T>, p: int, j: int)
    requires 0 <= p <= j < |s| && |r| == |s|
  {
    r[p] == s[j] &&
    (forall k :: p <= k < j ==> r[k + 1] == s[k]) &&
    (forall k :: 0 <= k < |s| && (k < p || j < k) ==> r[k] == s[k])
  }

  /** Exchanging j with j - 1 first and then shifting j - 1 down to p shifts j down to p. */
  lemma ShiftedAfterSwap<T>(r: seq<T>, s: seq<T>, p: int, j: int)
    requires 0 <= p < j < |s| && |r| == |s|
    requires Shifted(r, Swap(s, j, j - 1), p, j - 1)
    ensures Shifted(r, s, p, j)
  {
    var t := Swap(s, j, j - 1);
    assert r[j] == t[j] == s[j - 1];
  }

  /**
    One step of Insertion's outer loop, exactly: the element at j lands at
    p = SiftPlace(less, s[j], s, lo, j), the elements of [p, j) move up one cell,
    nothing else changes, and there are j - p exchanges. So the element moves past
    only elements strictly greater than it and stops behind any element it is not
    less than: an exchange never involves two equivalent elements.
  */
  lemma {:induction false} InsertionSiftMoves<T>(less: (T, T) -> bool, s: seq<T>, lo: int, j: int)
    requires 0 <= lo <= j < |s|
    ensures Shifted(GapSift(less, s, lo, 1, j), s, SiftPlace(less, s[j], s, lo, j), j)
    ensures SiftExchanges(less, s, lo, 1, j) == j - SiftPlace(less, s[j], s, lo, j)
    decreases j
  {
    if j - lo >= 1 && less(s[j], s[j - 1]) {
      var t := Swap(s, j, j - 1);
      assert t[j - 1] == s[j];
      InsertionSiftMoves(less, t, lo, j - 1);
      SiftPlaceAgree(less, s[j], s, t, lo, j - 1);
      ShiftedAfterSwap(GapSift(less, t, lo, 1, j - 1), s, SiftPlace(less, s[j], s, lo, j), j);
    }
  }

  // ---------------------------------------------------------------------------
  // Selection (sorter.go:68-76) as written.
  // ---------------------------------------------------------------------------

  /**
    Selection's inner loop: starting from min, advance while the next element is
    less than the current one. The result is the end of the strictly decreasing
    run that starts at min, not the position of the smallest element.
  */
  function RunEnd<T>(less: (T, T) -> bool, s: seq<T>, min: int, end: int): (r: int)
    requires 0 <= min < end <= |s|
    ensures min <= r < end
    decreases end - min
  {
    if min + 1 < end && less(s[min + 1], s[min]) then RunEnd(less, s, min + 1, end) else min
  }

  /**
    RunEnd(min) is the end of a run: every element after min up to it is less than
    its predecessor, and the element after it (if inside the range) is not.
  */
  lemma {:induction false} RunEndIsRunEnd<T>(less: (T, T) -> bool, s: seq<T>, min: int, end: int)
    requires 0 <= min < end <= |s|
    ensures forall k :: min < k <= RunEnd(less, s, min, end) ==> less(s[k], s[k - 1])
    ensures RunEnd(less, s, min, end) + 1 < end ==> !less(s[RunEnd(less, s, min, end) + 1], s[RunEnd(less, s, min, end)])
    decreases end - min
  {
    if min + 1 < end && less(s[min + 1], s[min]) {
      RunEndIsRunEnd(less, s, min + 1, end);
    }
  }

  /** Conversely, the properties of RunEndIsRunEnd single out RunEnd's result. */
  lemma RunEndUnique<T>(less: (T, T) -> bool, s: seq<T>, i: int, end: int, m: int)
    requires 0 <= i <= m < end <= |s|
    requires forall k :: i < k <= m ==> less(s[k], s[k - 1])
    requires m + 1 < end ==> !less(s[m + 1], s[m])
    ensures m == RunEnd(less, s, i, end)
  {
    RunEndIsRunEnd(less, s, i, end);
  }

  /** Selection's outer loop from position i: exchange i with RunEnd, then continue at i + 1. */
  function SelectFrom<T>(less: (T, T) -> bool, s: seq<T>, i: int, end: int): (r: seq<T>)
    requires 0 <= i && end <= |s|
    ensures |r| == |s|
    decreases end - i
  {
    if i >= end then s else SelectFrom(less, Swap(s, i, RunEnd(less, s, i, end)), i + 1, end)
  }

  /** Selection reorders [i, end) and leaves every other cell unchanged. */
  lemma {:induction false} SelectFromPermIn<T>(less: (T, T) -> bool, s: seq<T>, i: int, end: int)
    requires 0 <= i && end <= |s|
    ensures PermIn(SelectFrom(less, s, i, end), s, i, end)
    decreases end - i
  {
    if i < end {
      var t := Swap(s, i, RunEnd(less, s, i, end));
      SwapPermIn(s, i, end, i, RunEnd(less, s, i, end));
      SelectFromPermIn(less, t, i + 1, end);
      PermInWiden(SelectFrom(less, t, i + 1, end), t, i, i + 1, end, end);
      PermInTrans(SelectFrom(less, t, i + 1, end), t, s, i, end);
    }
  }

  /** On a sorted range every RunEnd is its own start, so each exchange is with itself. */
  lemma {:induction false} SelectFromOnSorted<T>(less: (T, T) -> bool, s: seq<T>, i: int, end: int)
    requires 0 <= i && end <= |s| && Sorted(less, s, i, end)
    ensures SelectFrom(less, s, i, end) == s
    decreases end - i
  {
    if i < end {
      assert RunEnd(less, s, i, end) == i;
      assert Swap(s, i, i) == s;
      SelectFromOnSorted(less, s, i + 1, end);
    }
  }

  /** Selection as written does not sort: on [5, 3, 1, 4, 2] it yields [1, 3, 2, 4, 5]. */
  lemma SelectionDoesNotSort()
    ensures SelectFrom((x: int, y: int) => x < y, [5, 3, 1, 4, 2], 0, 5) == [1, 3, 2, 4, 5]
    ensures !Sorted((x: int, y: int) => x < y, [1, 3, 2, 4, 5], 0, 5)
  {
    var less := (x: int, y: int) => x < y;
    var s0 := [5, 3, 1, 4, 2];
    assert RunEnd(less, s0, 0, 5) == 2;
    var s1 := Swap(s0, 0, 2);
    assert s1 == [1, 3, 5, 4, 2];
    assert RunEnd(less, s1, 1, 5) == 1;
    var s2 := Swap(s1, 1, 1);
    assert s2 == s1;
    assert RunEnd(less, s2, 2, 5) == 4;
    var s3 := Swap(s2, 2, 4);
    assert s3 == [1, 3, 2, 4, 5];
    assert RunEnd(less, s3, 3, 5) == 3;
    var s4 := Swap(s3, 3, 3);
    assert s4 == s3;
    assert RunEnd(less, s4, 4, 5) == 4;
    var s5 := Swap(s4, 4, 4);
    assert s5 == s3;
    assert SelectFrom(less, s5, 5, 5) == s3;
    assert less(s3[2], s3[1]);
  }

  // ---------------------------------------------------------------------------
  // Shell (sorter.go:108-121): the gap sequence and the passes.
  // ---------------------------------------------------------------------------

  /** The gap sequence 1, 4, 13, 40, 121, ...: each member is three times its predecessor plus one. */
  ghost predicate InGapSequence(h: int)
    decreases h
  {
    h == 1 || (h > 1 && h % 3 == 1 && InGapSequence(h / 3))
  }

  function Pow3(k: nat): (r: nat)
    ensures r >= 1
  {
    if k == 0 then 1 else 3 * Pow3(k - 1)
  }

  /** Every h with 2h + 1 == 3^k, k >= 1, that is every (3^k - 1) / 2, is in the gap sequence ... */
  lemma {:induction false} GapFromExponent(k: nat, h: int)
    requires k >= 1 && 2 * h + 1 == Pow3(k)
    ensures InGapSequence(h)
  {
    if k > 1 {
      var p := Pow3(k - 1);
      assert 2 * h + 1 == 3 * p;
      var g := (p - 1) / 2;
      assert 2 * g + 1 == p;
      assert h == 3 * g + 1;
      GapFromExponent(k - 1, g);
      assert h / 3 == g && h % 3 == 1;
    }
  }

  /** ... and every member of the gap sequence is of that form. */
  lemma {:induction false} GapHasExponent(h: int)
    requires InGapSequence(h)
    ensures exists k: nat :: k >= 1 && 2 * h + 1 == Pow3(k)
    decreases h
  {
    if h == 1 {
      assert 2 * h + 1 == Pow3(1);
    } else {
      var g := h / 3;
      assert h == 3 * g + 1;
      GapHasExponent(g);
      var k: nat :| k >= 1 && 2 * g + 1 == Pow3(k);
      assert 2 * h + 1 == 3 * Pow3(k) == Pow3(k + 1);
    }
  }

  /** Growing a gap and dividing it by three again returns to the same member of the sequence. */
  lemma GapGrowShrink(h: int)
    requires InGapSequence(h)
    ensures InGapSequence(3 * h + 1) && (3 * h + 1) / 3 == h
  {
  }

  /**
    Dividing a member of the sequence by three gives the one before it, and gives 0
    exactly for the gap 1: so the descending passes end with a gap-1 pass and stop.
  */
  lemma GapShrink(h: int)
    requires InGapSequence(h)
    ensures h / 3 == 0 <==> h == 1
    ensures h > 1 ==> InGapSequence(h / 3) && 1 <= h / 3 < h
  {
  }

  /**
    Shell's gap-growing loop: while h < n / 3 the gap becomes 3 * h + 1. The
    result is the first gap from h on that reaches n / 3 (or h itself): the gap
    before it, r / 3, was still below n / 3. For n < 0 Go's truncating n / 3 and
    Dafny's Euclidean n / 3 are both at most 0 < h, so the loop exits at once in both.
  */
  function InitialGap(n: int, h: int): (r: int)
    requires h >= 1
    ensures r >= h && r >= n / 3
    ensures r == h || r / 3 < n / 3
    ensures InGapSequence(h) ==> InGapSequence(r)
    decreases n - h
  {
    if h < n / 3 then InitialGap(n, 3 * h + 1) else h
  }

  /** Shell's descending loop: a pass with gap h, then the passes from gap h / 3, until the gap is 0. */
  function ShellPasses<T>(less: (T, T) -> bool, s: seq<T>, lo: int, hi: int, h: int): (r: seq<T>)
    requires 0 <= lo && hi <= |s| && h >= 0
    ensures |r| == |s|
    decreases h
  {
    if h < 1 then s else ShellPasses(less, GapPass(less, s, lo, hi, h, lo + h), lo, hi, h / 3)
  }

  /** The number of exchanges ShellPasses performs. */
  function ShellExchanges<T>(less: (T, T) -> bool, s: seq<T>, lo: int, hi: int, h: int): nat
    requires 0 <= lo && hi <= |s| && h >= 0
    decreases h
  {
    if h < 1 then 0
    else PassExchanges(less, s, lo, hi, h, lo + h) + ShellExchanges(less, GapPass(less, s, lo, hi, h, lo + h), lo, hi, h / 3)
  }

  /** Shell sort of the positions [lo, hi): gap growth from 1, then the descending passes. */
  function ShellSort<T>(less: (T, T) -> bool, s: seq<T>, lo: int, hi: int): (r: seq<T>)
    requires 0 <= lo && hi <= |s|
    ensures |r| == |s|
  {
    ShellPasses(less, s, lo, hi, InitialGap(hi - lo, 1))
  }

  /** The number of exchanges ShellSort performs. */
  function ShellSortExchanges<T>(less: (T, T) -> bool, s: seq<T>, lo: int, hi: int): nat
    requires 0 <= lo && hi <= |s|
  {
    ShellExchanges(less, s, lo, hi, InitialGap(hi - lo, 1))
  }

  /**
    Shell(coll, bgn, end) as written: the gap comes from n = end - bgn, but the
    passes index from 0, so they work on [0, n) whatever bgn is.
  */
  function ShellModel<T>(less: (T, T) -> bool, s: seq<T>, bgn: int, end: int): (r: seq<T>)
    requires end - bgn <= |s|
    ensures |r| == |s|
  {
    ShellSort(less, s, 0, end - bgn)
  }

  /** The passes reorder [lo, hi) and leave every other cell unchanged. */
  lemma {:induction false} ShellPassesPermIn<T>(less: (T, T) -> bool, s: seq<T>, lo: int, hi: int, h: int)
    requires 0 <= lo && hi <= |s| && h >= 0
    ensures PermIn(ShellPasses(less, s, lo, hi, h), s, lo, hi)
    decreases h
  {
    if h >= 1 {
      var t := GapPass(less, s, lo, hi, h, lo + h);
      GapPassPermIn(less, s, lo, hi, h, lo + h);
      ShellPassesPermIn(less, t, lo, hi, h / 3);
      PermInTrans(ShellPasses(less, t, lo, hi, h / 3), t, s, lo, hi);
    }
  }

  /**
    Started from a member of the gap sequence, the passes end with a gap-1 pass,
    a plain insertion sort of [lo, hi); so [lo, hi) ends sorted whatever the
    earlier passes did.
  */
  lemma {:induction false} ShellPassesSorts<T>(less: (T, T) -> bool, s: seq<T>, lo: int, hi: int, h: int)
    requires 0 <= lo && hi <= |s| && InGapSequence(h) && Asymmetric(less, multiset(s))
    ensures Sorted(less, ShellPasses(less, s, lo, hi, h), lo, hi)
    decreases h
  {
    var t := GapPass(less, s, lo, hi, h, lo + h);
    if h == 1 {
      if lo + 1 < hi {
        GapPassSorts(less, s, lo, hi, lo + 1);
      }
      assert ShellPasses(less, t, lo, hi, 0) == t;
    } else {
      GapPassPermIn(less, s, lo, hi, h, lo + h);
      ShellPassesSorts(less, t, lo, hi, h / 3);
    }
  }

  /** Under a strict weak order, the passes make no exchange on a range that is already sorted. */
  lemma {:induction false} ShellPassesOnSorted<T>(less: (T, T) -> bool, s: seq<T>, lo: int, hi: int, h: int)
    requires 0 <= lo && hi <= |s| && h >= 0 && StrictWeakOrder(less, multiset(s)) && Sorted(less, s, lo, hi)
    ensures ShellPasses(less, s, lo, hi, h) == s
    ensures ShellExchanges(less, s, lo, hi, h) == 0
    decreases h
  {
    if h >= 1 {
      SortedIsHSorted(less, s, lo, hi, h);
      GapPassOnHSorted(less, s, lo, hi, h, lo + h);
      ShellPassesOnSorted(less, s, lo, hi, h / 3);
    }
  }

  /**
    What Shell(coll, bgn, end) as written achieves: [0, end - bgn) is reordered and
    sorted, every other cell is unchanged, and a sorted [0, end - bgn) is left alone.
  */
  lemma ShellModelSortsPrefix<T>(less: (T, T) -> bool, s: seq<T>, bgn: int, end: int)
    requires end - bgn <= |s|
    ensures PermIn(ShellModel(less, s, bgn, end), s, 0, end - bgn)
    ensures Asymmetric(less, multiset(s)) ==> Sorted(less, ShellModel(less, s, bgn, end), 0, end - bgn)
    ensures StrictWeakOrder(less, multiset(s)) && Sorted(less, s, 0, end - bgn) ==>
              ShellModel(less, s, bgn, end) == s && ShellSortExchanges(less, s, 0, end - bgn) == 0
  {
    ShellSortFacts(less, s, 0, end - bgn);
  }

  /**
    Shell sort of [lo, hi) reorders and sorts that range, changes no other cell,
    and leaves a sorted range alone with no exchange.
  */
  lemma ShellSortFacts<T>(less: (T, T) -> bool, s: seq<T>, lo: int, hi: int)
    requires 0 <= lo && hi <= |s|
    ensures PermIn(ShellSort(less, s, lo, hi), s, lo, hi)
    ensures Asymmetric(less, multiset(s)) ==> Sorted(less, ShellSort(less, s, lo, hi), lo, hi)
    ensures StrictWeakOrder(less, multiset(s)) && Sorted(less, s, lo, hi) ==>
              ShellSort(less, s, lo, hi) == s && ShellSortExchanges(less, s, lo, hi) == 0
  {
    var h := InitialGap(hi - lo, 1);
    ShellPassesPermIn(less, s, lo, hi, h);
    if Asymmetric(less, multiset(s)) {
      ShellPassesSorts(less, s, lo, hi, h);
    }
    if StrictWeakOrder(less, multiset(s)) && Sorted(less, s, lo, hi) {
      ShellPassesOnSorted(less, s, lo, hi, h);
    }
  }

  /**
    Shell as written does not sort [bgn, end) when bgn > 0: on [2, 1, 0] with
    bgn = 1, end = 3 it sorts [0, 2) instead, giving [1, 2, 0].
  */
  lemma ShellIgnoresBgn()
    ensures ShellModel((x: int, y: int) => x < y, [2, 1, 0], 1, 3) == [1, 2, 0]
    ensures !Sorted((x: int, y: int) => x < y, [1, 2, 0], 1, 3)
  {
    var less := (x: int, y: int) => x < y;
    var s := [2, 1, 0];
    assert InitialGap(2, 1) == 1;
    assert GapSift(less, s, 0, 1, 1) == GapSift(less, [1, 2, 0], 0, 1, 0) == [1, 2, 0];
    assert GapPass(less, s, 0, 2, 1, 1) == GapPass(less, [1, 2, 0], 0, 2, 1, 2) == [1, 2, 0];
    assert ShellPasses(less, s, 0, 2, 1) == ShellPasses(less, [1, 2, 0], 0, 2, 0);
    var u := [1, 2, 0];
    assert less(u[1 + 1], u[1]);
  }

  /**
    What Insertion(coll, bgn, end) achieves: [bgn, end) is reordered, every other
    cell is unchanged, the range ends sorted when less is asymmetric, and an
    already sorted range is left alone with no exchange.
  */
  lemma InsertionFacts<T>(less: (T, T) -> bool, s: seq<T>, bgn: int, end: int)
    requires 0 <= bgn <= end <= |s|
    ensures PermIn(GapPass(less, s, bgn, end, 1, bgn), s, bgn, end)
    ensures Asymmetric(less, multiset(s)) ==> Sorted(less, GapPass(less, s, bgn, end, 1, bgn), bgn, end)
    ensures Sorted(less, s, bgn, end) ==>
              GapPass(less, s, bgn, end, 1, bgn) == s && PassExchanges(less, s, bgn, end, 1, bgn) == 0
  {
    GapPassPermIn(less, s, bgn, end, 1, bgn);
    if Asymmetric(less, multiset(s)) {
      GapPassSorts(less, s, bgn, end, bgn);
    }
    if Sorted(less, s, bgn, end) {
      GapPassOnHSorted(less, s, bgn, end, 1, bgn);
    }
  }

  /**
    What Selection(coll, bgn, end) achieves: [bgn, end) is reordered, every other
    cell is unchanged, and an already sorted range is left as it was.
  */
  lemma SelectionFacts<T>(less: (T, T) -> bool, s: seq<T>, bgn: int, end: int)
    requires 0 <= bgn <= end <= |s|
    ensures PermIn(SelectFrom(less, s, bgn, end), s, bgn, end)
    ensures Sorted(less, s, bgn, end) ==> SelectFrom(less, s, bgn, end) == s
  {
    SelectFromPermIn(less, s, bgn, end);
    if Sorted(less, s, bgn, end) {
      SelectFromOnSorted(less, s, bgn, end);
    }
  }

  // ---------------------------------------------------------------------------
  // Locality: every routine reads only the cells of the range it works on.
  // ---------------------------------------------------------------------------

  /** A sift inside [lo, hi) compares only cells of [lo, hi): inputs that agree there give results and counts that agree. */
  lemma {:induction false} GapSiftLocal<T>(less: (T, T) -> bool, s: seq<T>, t: seq<T>, lo: int, hi: int, h: int, j: int)
    requires 0 <= lo <= j < hi <= |s| && hi <= |t| && h >= 1 && AgreeOn(s, t, lo, hi)
    ensures AgreeOn(GapSift(less, s, lo, h, j), GapSift(less, t, lo, h, j), lo, hi)
    ensures SiftExchanges(less, s, lo, h, j) == SiftExchanges(less, t, lo, h, j)
    decreases j
  {
    if j - lo >= h {
      assert s[j] == t[j] && s[j - h] == t[j - h];
      if less(s[j], s[j - h]) {
        SwapAgree(s, t, lo, hi, j, j - h);
        GapSiftLocal(less, Swap(s, j, j - h), Swap(t, j, j - h), lo, hi, h, j - h);
      }
    }
  }

  /** A pass over [lo, hi) depends only on the cells of [lo, hi). */
  lemma {:induction false} GapPassLocal<T>(less: (T, T) -> bool, s: seq<T>, t: seq<T>, lo: int, hi: int, h: int, i: int)
    requires 0 <= lo <= i && hi <= |s| && hi <= |t| && h >= 1 && AgreeOn(s, t, lo, hi)
    ensures AgreeOn(GapPass(less, s, lo, hi, h, i), GapPass(less, t, lo, hi, h, i), lo, hi)
    ensures PassExchanges(less, s, lo, hi, h, i) == PassExchanges(less, t, lo, hi, h, i)
    decreases hi - i
  {
    if i < hi {
      GapSiftLocal(less, s, t, lo, hi, h, i);
      GapPassLocal(less, GapSift(less, s, lo, h, i), GapSift(less, t, lo, h, i), lo, hi, h, i + 1);
    }
  }

  /** The passes over [lo, hi) depend only on the cells of [lo, hi). */
  lemma {:induction false} ShellPassesLocal<T>(less: (T, T) -> bool, s: seq<T>, t: seq<T>, lo: int, hi: int, h: int)
    requires 0 <= lo && hi <= |s| && hi <= |t| && h >= 0 && AgreeOn(s, t, lo, hi)
    ensures AgreeOn(ShellPasses(less, s, lo, hi, h), ShellPasses(less, t, lo, hi, h), lo, hi)
    ensures ShellExchanges(less, s, lo, hi, h) == ShellExchanges(less, t, lo, hi, h)
    decreases h
  {
    if h >= 1 {
      GapPassLocal(less, s, t, lo, hi, h, lo + h);
      ShellPassesLocal(less, GapPass(less, s, lo, hi, h, lo + h), GapPass(less, t, lo, hi, h, lo + h), lo, hi, h / 3);
    }
  }

  /** The end of the run that starts at min depends only on the cells of [min, end). */
  lemma {:induction false} RunEndLocal<T>(less: (T, T) -> bool, s: seq<T>, t: seq<T>, min: int, end: int)
    requires 0 <= min < end <= |s| && end <= |t| && AgreeOn(s, t, min, end)
    ensures RunEnd(less, s, min, end) == RunEnd(less, t, min, end)
    decreases end - min
  {
    if min + 1 < end {
      assert s[min + 1] == t[min + 1] && s[min] == t[min];
      RunEndLocal(less, s, t, min + 1, end);
    }
  }

  /** Selection's outer loop from i inside [lo, end) depends only on the cells of [lo, end). */
  lemma {:induction false} SelectFromLocal<T>(less: (T, T) -> bool, s: seq<T>, t: seq<T>, lo: int, i: int, end: int)
    requires 0 <= lo <= i && end <= |s| && end <= |t| && AgreeOn(s, t, lo, end)
    ensures AgreeOn(SelectFrom(less, s, i, end), SelectFrom(less, t, i, end), lo, end)
    decreases end - i
  {
    if i < end {
      RunEndLocal(less, s, t, i, end);
      var m := RunEnd(less, s, i, end);
      SwapAgree(s, t, lo, end, i, m);
      SelectFromLocal(less, Swap(s, i, m), Swap(t, i, m), lo, i + 1, end);
    }
  }

  /**
    Insertion(coll, bgn, end) reads no cell outside [bgn, end): two slices that
    agree on [bgn, end) end up agreeing there, after the same number of exchanges.
  */
  lemma InsertionLocal<T>(less: (T, T) -> bool, s: seq<T>, t: seq<T>, bgn: int, end: int)
    requires 0 <= bgn <= end <= |s| && end <= |t| && AgreeOn(s, t, bgn, end)
    ensures AgreeOn(GapPass(less, s, bgn, end, 1, bgn), GapPass(less, t, bgn, end, 1, bgn), bgn, end)
    ensures PassExchanges(less, s, bgn, end, 1, bgn) == PassExchanges(less, t, bgn, end, 1, bgn)
  {
    GapPassLocal(less, s, t, bgn, end, 1, bgn);
  }

  /** Selection(coll, bgn, end) reads no cell outside [bgn, end). */
  lemma SelectionLocal<T>(less: (T, T) -> bool, s: seq<T>, t: seq<T>, bgn: int, end: int)
    requires 0 <= bgn <= end <= |s| && end <= |t| && AgreeOn(s, t, bgn, end)
    ensures AgreeOn(SelectFrom(less, s, bgn, end), SelectFrom(less, t, bgn, end), bgn, end)
  {
    SelectFromLocal(less, s, t, bgn, bgn, end);
  }

  /**
    Shell sort of [lo, hi) reads no cell outside [lo, hi). For Shell as written,
    lo = 0 and hi = end - bgn.
  */
  lemma ShellSortLocal<T>(less: (T, T) -> bool, s: seq<T>, t: seq<T>, lo: int, hi: int)
    requires 0 <= lo && hi <= |s| && hi <= |t| && AgreeOn(s, t, lo, hi)
    ensures AgreeOn(ShellSort(less, s, lo, hi), ShellSort(less, t, lo, hi), lo, hi)
    ensures ShellSortExchanges(less, s, lo, hi) == ShellSortExchanges(less, t, lo, hi)
  {
    ShellPassesLocal(less, s, t, lo, hi, InitialGap(hi - lo, 1));
  }
}
