/**
  Vocabulary shared by the sorting model: exchanging two cells, "a permutation of
  one range, everything else unchanged", the adjacent-pair notion of "sorted" that
  the sorting routines promise, and the properties of a comparator that the
  promises depend on.
*/
module Orders {

  /** The sequence s with the elements at positions i and j exchanged (i == j is allowed). */
  function Swap<T>(s: seq<T>, i: int, j: int): (r: seq<T>)
    requires 0 <= i < |s| && 0 <= j < |s|
    ensures |r| == |s| && r[i] == s[j] && r[j] == s[i]
    ensures forall k :: 0 <= k < |s| && k != i && k != j ==> r[k] == s[k]
  {
    s[i := s[j]][j := s[i]]
  }

  /**
    t is obtained from s by reordering the cells of [lo, hi) only: the two hold the
    same multiset of elements and every cell outside the range is unchanged (so the
    range itself holds the same multiset, by PermInRange). An empty or inverted
    range means t == s.
  */
  ghost predicate PermIn<T>(t: seq<T>, s: seq<T>, lo: int, hi: int)
  {
    && |t| == |s|
    && multiset(t) == multiset(s)
    && forall k :: 0 <= k < |s| && !(lo <= k < hi) ==> t[k] == s[k]
  }

  /** s and t hold the same element in every cell of [lo, hi); other cells may differ. */
  ghost predicate AgreeOn<T>(s: seq<T>, t: seq<T>, lo: int, hi: int)
    requires 0 <= lo && hi <= |s| && hi <= |t|
  {
    forall k :: lo <= k < hi ==> s[k] == t[k]
  }

  /**
    No element of [lo, hi) is less than the element h positions before it:
    the range is "h-sorted". A range with fewer than h + 1 cells is h-sorted.
  */
  ghost predicate HSorted<T>(less: (T, T) -> bool, s: seq<T>, lo: int, hi: int, h: int)
    requires 0 <= lo && hi <= |s| && h >= 1
  {
    forall k :: lo <= k && k + h < hi ==> !less(s[k + h], s[k])
  }

  /**
    The sortedness the routines promise: there is no k in [lo, hi - 1) with
    less(s[k + 1], s[k]), i.e. the range is non-decreasing under less.
  */
  ghost predicate Sorted<T>(less: (T, T) -> bool, s: seq<T>, lo: int, hi: int)
    requires 0 <= lo && hi <= |s|
  {
    HSorted(less, s, lo, hi, 1)
  }

  // The properties of a comparator are asked only of the elements m being sorted
  // (callers pass multiset(s)), so any element type, references included, can be
  // sorted. Every routine keeps multiset(s), so the elements stay the same.

  ghost predicate Irreflexive<T>(less: (T, T) -> bool, m: multiset<T>) {
    forall x :: x in m ==> !less(x, x)
  }

  ghost predicate Asymmetric<T>(less: (T, T) -> bool, m: multiset<T>) {
    forall x, y :: x in m && y in m && less(x, y) ==> !less(y, x)
  }

  ghost predicate Transitive<T>(less: (T, T) -> bool, m: multiset<T>) {
    forall x, y, z :: x in m && y in m && z in m && less(x, y) && less(y, z) ==> less(x, z)
  }

  /** "Not less than" is transitive: !less(y, x) and !less(z, y) give !less(z, x). */
  ghost predicate NotLessTransitive<T>(less: (T, T) -> bool, m: multiset<T>) {
    forall x, y, z :: x in m && y in m && z in m && !less(y, x) && !less(z, y) ==> !less(z, x)
  }

  /** A strict weak order on m, the ordering a comparator is expected to be. */
  ghost predicate StrictWeakOrder<T>(less: (T, T) -> bool, m: multiset<T>) {
    Irreflexive(less, m) && Transitive(less, m) && NotLessTransitive(less, m)
  }

  lemma StrictWeakOrderIsAsymmetric<T>(less: (T, T) -> bool, m: multiset<T>)
    requires StrictWeakOrder(less, m)
    ensures Asymmetric(less, m)
  {
  }

  /** Asymmetry on the elements of s, stated for the positions of s. */
  lemma AsymmetricIndices<T>(less: (T, T) -> bool, s: seq<T>)
    requires Asymmetric(less, multiset(s))
    ensures forall a, b :: 0 <= a < |s| && 0 <= b < |s| && less(s[a], s[b]) ==> !less(s[b], s[a])
  {
    forall a, b | 0 <= a < |s| && 0 <= b < |s| && less(s[a], s[b])
      ensures !less(s[b], s[a])
    {
      assert s[a] in multiset(s) && s[b] in multiset(s);
    }
  }

  /** less is irreflexive and transitive on the cells of s, stated by position. */
  ghost predicate StrictOrderOn<T>(less: (T, T) -> bool, s: seq<T>) {
    && (forall a :: 0 <= a < |s| ==> !less(s[a], s[a]))
    && (forall a, b, c :: 0 <= a < |s| && 0 <= b < |s| && 0 <= c < |s| && less(s[a], s[b]) && less(s[b], s[c]) ==>
          less(s[a], s[c]))
  }

  /** Irreflexivity and transitivity on the elements m of s give them on the cells of s. */
  lemma OrderIndices<T>(less: (T, T) -> bool, m: multiset<T>, s: seq<T>)
    requires multiset(s) == m && Irreflexive(less, m) && Transitive(less, m)
    ensures StrictOrderOn(less, s)
  {
    forall a | 0 <= a < |s|
      ensures !less(s[a], s[a])
    {
      assert s[a] in m;
    }
    forall a, b, c | 0 <= a < |s| && 0 <= b < |s| && 0 <= c < |s| && less(s[a], s[b]) && less(s[b], s[c])
      ensures less(s[a], s[c])
    {
      assert s[a] in m && s[b] in m && s[c] in m;
    }
  }

  /** Exchanging two cells of [lo, hi) reorders that range and nothing else. */
  lemma SwapPermIn<T>(s: seq<T>, lo: int, hi: int, i: int, j: int)
    requires 0 <= lo <= i < hi <= |s| && lo <= j < hi
    ensures PermIn(Swap(s, i, j), s, lo, hi)
  {
  }

  /** The same exchange inside [lo, hi) applied to two sequences that agree on [lo, hi) keeps them agreeing there. */
  lemma SwapAgree<T>(s: seq<T>, t: seq<T>, lo: int, hi: int, i: int, j: int)
    requires 0 <= lo <= i < hi <= |s| && hi <= |t| && lo <= j < hi && AgreeOn(s, t, lo, hi)
    ensures AgreeOn(Swap(s, i, j), Swap(t, i, j), lo, hi)
  {
  }

  lemma PermInTrans<T>(u: seq<T>, t: seq<T>, s: seq<T>, lo: int, hi: int)
    requires PermIn(u, t, lo, hi) && PermIn(t, s, lo, hi)
    ensures PermIn(u, s, lo, hi)
  {
  }

  /** A reordering of a range is also a reordering of any range that contains it. */
  lemma PermInWiden<T>(t: seq<T>, s: seq<T>, lo: int, lo': int, hi': int, hi: int)
    requires lo <= lo' && hi' <= hi
    requires PermIn(t, s, lo', hi')
    ensures PermIn(t, s, lo, hi)
  {
  }

  /** A reordering of [lo, hi) keeps the multiset of that range itself. */
  lemma PermInRange<T>(t: seq<T>, s: seq<T>, lo: int, hi: int)
    requires 0 <= lo <= hi <= |s| && PermIn(t, s, lo, hi)
    ensures multiset(t[lo..hi]) == multiset(s[lo..hi])
  {
    assert t == t[..lo] + t[lo..hi] + t[hi..];
    assert s == s[..lo] + s[lo..hi] + s[hi..];
    assert t[..lo] == s[..lo];
    assert t[hi..] == s[hi..];
    var outside := multiset(s[..lo]) + multiset(s[hi..]);
    assert multiset(t) == multiset(t[lo..hi]) + outside;
    assert multiset(s) == multiset(s[lo..hi]) + outside;
    assert multiset(t[lo..hi]) == multiset(t) - outside;
  }

  /**
    For a strict weak order the adjacent-pair form of sortedness gives the
    pairwise form: no element of the range is less than any element before it.
  */
  lemma {:induction false} SortedPairwise<T>(less: (T, T) -> bool, s: seq<T>, lo: int, hi: int)
    requires 0 <= lo && hi <= |s| && NotLessTransitive(less, multiset(s)) && Sorted(less, s, lo, hi)
    ensures forall i, j :: lo <= i < j < hi ==> !less(s[j], s[i])
  {
    forall i, j | lo <= i < j < hi
      ensures !less(s[j], s[i])
    {
      SortedFrom(less, s, lo, hi, i, j);
    }
  }

  lemma {:induction false} SortedFrom<T>(less: (T, T) -> bool, s: seq<T>, lo: int, hi: int, i: int, j: int)
    requires 0 <= lo <= i < j < hi <= |s| && NotLessTransitive(less, multiset(s)) && Sorted(less, s, lo, hi)
    ensures !less(s[j], s[i])
    decreases j - i
  {
    if j > i + 1 {
      SortedFrom(less, s, lo, hi, i, j - 1);
      assert !less(s[j], s[j - 1]);
    }
  }

  /** Hence a range sorted under a strict weak order is h-sorted for every gap h. */
  lemma SortedIsHSorted<T>(less: (T, T) -> bool, s: seq<T>, lo: int, hi: int, h: int)
    requires 0 <= lo && hi <= |s| && h >= 1 && NotLessTransitive(less, multiset(s)) && Sorted(less, s, lo, hi)
    ensures HSorted(less, s, lo, hi, h)
  {
    SortedPairwise(less, s, lo, hi);
  }
}
