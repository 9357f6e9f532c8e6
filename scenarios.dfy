/**
  Concrete runs of the model on small inputs, computed by the verifier, and a
  client of By.Sort.
*/
module Scenarios {
  import opened Orders
  import opened SortSpec
  import opened Sorter

  /** Insertion on [5, 3, 1, 4, 2] over [0, 5) gives [1, 2, 3, 4, 5]. */
  lemma InsertionScenario()
    ensures GapPass((x: int, y: int) => x < y, [5, 3, 1, 4, 2], 0, 5, 1, 0) == [1, 2, 3, 4, 5]
  {
  }

  /** Insertion on [9, 8, 1, 2, 3] over [1, 4) sorts [8, 1, 2] and leaves cells 0 and 4 alone. */
  lemma InsertionSubrangeScenario()
    ensures GapPass((x: int, y: int) => x < y, [9, 8, 1, 2, 3], 1, 4, 1, 1) == [9, 1, 2, 8, 3]
  {
  }

  /** Shell on [9, 8, ..., 1] over [0, 9) (gaps 4 then 1) gives [1, 2, ..., 9]. */
  lemma ShellScenario()
    ensures ShellModel((x: int, y: int) => x < y, [9, 8, 7, 6, 5, 4, 3, 2, 1], 0, 9) == [1, 2, 3, 4, 5, 6, 7, 8, 9]
  {
    var less := (x: int, y: int) => x < y;
    var s := [9, 8, 7, 6, 5, 4, 3, 2, 1];
    assert InitialGap(9, 1) == 4;
    var t := GapPass(less, s, 0, 9, 4, 4);
    assert t == [1, 4, 3, 2, 5, 8, 7, 6, 9];
    // The gap-1 pass: only the sifts at 2, 3, 6 and 7 move anything.
    var t2 := [1, 3, 4, 2, 5, 8, 7, 6, 9];
    var t3 := [1, 2, 3, 4, 5, 8, 7, 6, 9];
    var t6 := [1, 2, 3, 4, 5, 7, 8, 6, 9];
    var sorted := [1, 2, 3, 4, 5, 6, 7, 8, 9];
    assert GapSift(less, t, 0, 1, 1) == t;
    assert GapSift(less, t, 0, 1, 2) == t2;
    assert GapSift(less, t2, 0, 1, 3) == t3;
    assert GapSift(less, t3, 0, 1, 4) == t3;
    assert GapSift(less, t3, 0, 1, 5) == t3;
    assert GapSift(less, t3, 0, 1, 6) == t6;
    assert GapSift(less, t6, 0, 1, 7) == sorted;
    assert GapSift(less, sorted, 0, 1, 8) == sorted;
    assert GapPass(less, sorted, 0, 9, 1, 8) == sorted;
    assert GapPass(less, t6, 0, 9, 1, 7) == sorted;
    assert GapPass(less, t3, 0, 9, 1, 6) == sorted;
    assert GapPass(less, t3, 0, 9, 1, 5) == sorted;
    assert GapPass(less, t3, 0, 9, 1, 4) == sorted;
    assert GapPass(less, t2, 0, 9, 1, 3) == sorted;
    assert GapPass(less, t, 0, 9, 1, 2) == sorted;
    assert GapPass(less, t, 0, 9, 1, 1) == sorted;
  }

  datatype Person = Person(age: int)

  function YoungerThan(p: Person, q: Person): bool {
    p.age < q.age
  }

  /** Comparing by age is a strict weak order on any collection of people. */
  lemma YoungerThanIsStrictWeakOrder(m: multiset<Person>)
    ensures StrictWeakOrder(YoungerThan, m)
  {
  }

  /** The outcome of By(YoungerThan).Sort on ages [30, 20, 25]. */
  lemma SortByAgeOutcome()
    ensures ShellModel(YoungerThan, [Person(30), Person(20), Person(25)], 0, 3) == [Person(20), Person(25), Person(30)]
  {
    var s := [Person(30), Person(20), Person(25)];
    assert InitialGap(3, 1) == 1;
    assert GapPass(YoungerThan, s, 0, 3, 1, 1) == [Person(20), Person(25), Person(30)];
  }

  /**
    By(YoungerThan).Sort on ages [30, 20, 25] gives ages [20, 25, 30]. The
    comparator is a strict weak order, so By.Sort's contract alone makes the
    result sorted and a reordering of the input; the exact outcome is computed.
  */
  method SortByAgeScenario()
  {
    var people := new Person[3];
    people[0], people[1], people[2] := Person(30), Person(20), Person(25);
    ghost var before := people[..];
    By(YoungerThan).Sort(people);
    YoungerThanIsStrictWeakOrder(multiset(before));
    StrictWeakOrderIsAsymmetric(YoungerThan, multiset(before));
    assert Sorted(YoungerThan, people[..], 0, 3);
    assert multiset(people[..]) == multiset(before);
    SortByAgeOutcome();
    assert people[..] == [Person(20), Person(25), Person(30)];
  }

  /** A heap object with a sort key: By.Sort sorts arrays of references too. */
  class Box {
    const key: int

    constructor (key: int)
      ensures this.key == key
    {
      this.key := key;
    }
  }

  function KeyLess(p: Box, q: Box): bool {
    p.key < q.key
  }

  lemma KeyLessIsStrictWeakOrder(m: multiset<Box>)
    ensures StrictWeakOrder(KeyLess, m)
  {
  }

  /** By(KeyLess).Sort on boxes with keys 2 and 1 puts the box with key 1 first. */
  method SortBoxesScenario()
  {
    var big := new Box(2);
    var small := new Box(1);
    var boxes := new Box[2](_ => big);
    boxes[1] := small;
    ghost var before := boxes[..];
    By(KeyLess).Sort(boxes);
    KeyLessIsStrictWeakOrder(multiset(before));
    StrictWeakOrderIsAsymmetric(KeyLess, multiset(before));
    assert multiset(boxes[..]) == multiset([big, small]);
    assert !KeyLess(boxes[1], boxes[0]);
    assert boxes[0] in multiset([big, small]) && boxes[1] in multiset([big, small]);
    assert boxes[..] == [small, big];
  }
}
