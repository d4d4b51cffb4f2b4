/**
 * Sorting and shuffling. `sortBy` orders by a comparator, `sortOn` by one or
 * more integer keys, each ascending or descending, compared
 * lexicographically in the order given. Both sorts are stable: elements
 * the comparison cannot tell apart keep their original relative order.
 * `shuffle` reorders by random draws, which the model takes as a parameter.
 */
module Sorting {
  import opened Selection

  /**
   * `cmp` behaves as a comparator: "`cmp(x, y) <= 0`" (x may come before y)
   * is total and transitive.
   */
  ghost predicate IsComparator<T(!new)>(cmp: (T, T) -> int) {
    Total(cmp) && Transitive(cmp)
  }

  ghost predicate Total<T(!new)>(cmp: (T, T) -> int) {
    forall x, y :: cmp(x, y) <= 0 || cmp(y, x) <= 0
  }

  ghost predicate Transitive<T(!new)>(cmp: (T, T) -> int) {
    forall x, y, z :: cmp(x, y) <= 0 && cmp(y, z) <= 0 ==> cmp(x, z) <= 0
  }

  /** Every element may come before every later one. */
  ghost predicate Sorted<T>(s: seq<T>, cmp: (T, T) -> int) {
    forall i, j :: 0 <= i < j < |s| ==> cmp(s[i], s[j]) <= 0
  }

  /** The elements the comparator ranks the same as `c`. */
  function SameRank<T>(cmp: (T, T) -> int, c: T): T -> bool {
    y => cmp(c, y) <= 0 && cmp(y, c) <= 0
  }

  /** Puts `x` before the first element it may precede, so that it stays ahead of its equals. */
  function Insert<T>(x: T, t: seq<T>, cmp: (T, T) -> int): (r: seq<T>)
    ensures multiset(r) == multiset(t) + multiset{x}
  {
    if t == [] then [x]
    else if cmp(x, t[0]) <= 0 then [x] + t
    else
      assert t == [t[0]] + t[1..];
      [t[0]] + Insert(x, t[1..], cmp)
  }

  /** The elements ordered by `cmp`, stably; always a permutation of the input. */
  function SortBy<T>(s: seq<T>, cmp: (T, T) -> int): (r: seq<T>)
    ensures multiset(r) == multiset(s)
  {
    if s == [] then []
    else
      assert s == [s[0]] + s[1..];
      Insert(s[0], SortBy(s[1..], cmp), cmp)
  }

  lemma {:induction false} InsertSorted<T(!new)>(x: T, t: seq<T>, cmp: (T, T) -> int)
    requires IsComparator(cmp) && Sorted(t, cmp)
    ensures Sorted(Insert(x, t, cmp), cmp)
  {
    if t != [] && cmp(x, t[0]) > 0 {
      InsertSorted(x, t[1..], cmp);
      var r := Insert(x, t, cmp);
      forall j | 0 < j < |r|
        ensures cmp(t[0], r[j]) <= 0
      {
        assert r[j] in multiset(t[1..]) + multiset{x};
        if r[j] in multiset(t[1..]) {
          var k :| 0 <= k < |t[1..]| && t[1..][k] == r[j];
          assert t[k + 1] == r[j];
        }
      }
    }
  }

  /** With a comparator, `sortBy` puts the elements in order. */
  lemma {:induction false} SortBySorted<T(!new)>(s: seq<T>, cmp: (T, T) -> int)
    requires IsComparator(cmp)
    ensures Sorted(SortBy(s, cmp), cmp)
  {
    if s != [] {
      SortBySorted(s[1..], cmp);
      InsertSorted(s[0], SortBy(s[1..], cmp), cmp);
    }
  }

  /** Two adjacent elements that do not both pass `same` can swap without changing the filter. */
  lemma FilterSwapAdjacent<T>(x: T, y: T, u: seq<T>, same: T -> bool)
    requires !(same(x) && same(y))
    ensures Filter([y] + ([x] + u), same) == Filter([x] + ([y] + u), same)
  {
  }

  /** Filtering after a common first element depends only on the filter of the rest. */
  lemma FilterCons<T>(y: T, u: seq<T>, v: seq<T>, same: T -> bool)
    requires Filter(u, same) == Filter(v, same)
    ensures Filter([y] + u, same) == Filter([y] + v, same)
  {
  }

  /** Inserting keeps, within each rank, the inserted element ahead of the others. */
  lemma {:induction false} InsertStable<T(!new)>(x: T, t: seq<T>, cmp: (T, T) -> int, c: T)
    requires Transitive(cmp)
    ensures Filter(Insert(x, t, cmp), SameRank(cmp, c)) == Filter([x] + t, SameRank(cmp, c))
  {
    var same := SameRank(cmp, c);
    if t != [] && cmp(x, t[0]) > 0 {
      var rest := Insert(x, t[1..], cmp);
      InsertStable(x, t[1..], cmp, c);
      // x and t[0] cannot share a rank: that would give cmp(x, t[0]) <= 0 through c.
      var t0 := t[0];
      assert !(same(x) && same(t0));
      assert Insert(x, t, cmp) == [t[0]] + rest;
      FilterCons(t[0], rest, [x] + t[1..], same);
      FilterSwapAdjacent(x, t[0], t[1..], same);
      assert [t[0]] + t[1..] == t;
    }
  }

  /**
   * Stability: the elements of any one rank come out of `sortBy` in the
   * order they went in.
   */
  lemma {:induction false} SortByStable<T(!new)>(s: seq<T>, cmp: (T, T) -> int, c: T)
    requires IsComparator(cmp)
    ensures Filter(SortBy(s, cmp), SameRank(cmp, c)) == Filter(s, SameRank(cmp, c))
  {
    if s != [] {
      SortByStable(s[1..], cmp, c);
      InsertStable(s[0], SortBy(s[1..], cmp), cmp, c);
      FilterConcat([s[0]], SortBy(s[1..], cmp), SameRank(cmp, c));
      FilterConcat([s[0]], s[1..], SameRank(cmp, c));
      assert s == [s[0]] + s[1..];
    }
  }

  /** One sort key: an integer derived from the element, ascending or descending. */
  datatype SortKey<!T> = Asc(key: T -> int) | Desc(key: T -> int)

  /** -1, 0 or 1 as `x` sorts before, with or after `y` on one key. */
  function CompareKey<T>(k: SortKey<T>, x: T, y: T): int {
    var a, b := k.key(x), k.key(y);
    var c := if a < b then -1 else if a > b then 1 else 0;
    if k.Asc? then c else -c
  }

  /** Lexicographic comparison over the keys in the order given: the first key that differs decides. */
  function CompareOn<T>(keys: seq<SortKey<T>>, x: T, y: T): (c: int)
    ensures -1 <= c <= 1
    ensures c == 0 <==> forall i :: 0 <= i < |keys| ==> keys[i].key(x) == keys[i].key(y)
  {
    if keys == [] then 0
    else
      var c := CompareKey(keys[0], x, y);
      if c != 0 then c else CompareOn(keys[1..], x, y)
  }

  lemma {:induction false} CompareOnAntisymmetric<T>(keys: seq<SortKey<T>>, x: T, y: T)
    ensures CompareOn(keys, x, y) == -CompareOn(keys, y, x)
  {
    if keys != [] {
      CompareOnAntisymmetric(keys[1..], x, y);
    }
  }

  lemma {:induction false} CompareOnTransitive<T>(keys: seq<SortKey<T>>, x: T, y: T, z: T)
    requires CompareOn(keys, x, y) <= 0 && CompareOn(keys, y, z) <= 0
    ensures CompareOn(keys, x, z) <= 0
  {
    if keys != [] && CompareKey(keys[0], x, y) == 0 && CompareKey(keys[0], y, z) == 0 {
      CompareOnTransitive(keys[1..], x, y, z);
    }
  }

  /** The comparator `sortOn` sorts by. */
  function KeyComparator<T>(keys: seq<SortKey<T>>): (T, T) -> int {
    (x, y) => CompareOn(keys, x, y)
  }

  /** The lexicographic key comparison is a comparator. */
  lemma KeyComparatorIsComparator<T(!new)>(keys: seq<SortKey<T>>)
    ensures IsComparator(KeyComparator(keys))
  {
    forall x, y ensures CompareOn(keys, x, y) <= 0 || CompareOn(keys, y, x) <= 0 {
      CompareOnAntisymmetric(keys, x, y);
    }
    forall x, y, z | CompareOn(keys, x, y) <= 0 && CompareOn(keys, y, z) <= 0
      ensures CompareOn(keys, x, z) <= 0
    {
      CompareOnTransitive(keys, x, y, z);
    }
  }

  /**
   * Sort on the keys: a permutation of the input, in lexicographic key
   * order, stable among elements whose keys are all equal.
   */
  function SortOn<T(!new)>(s: seq<T>, keys: seq<SortKey<T>>): (r: seq<T>)
    ensures multiset(r) == multiset(s)
    ensures forall i, j :: 0 <= i < j < |r| ==> CompareOn(keys, r[i], r[j]) <= 0
    ensures forall c :: Filter(r, SameRank(KeyComparator(keys), c)) == Filter(s, SameRank(KeyComparator(keys), c))
  {
    KeyComparatorIsComparator(keys);
    SortBySorted(s, KeyComparator(keys));
    forall c ensures Filter(SortBy(s, KeyComparator(keys)), SameRank(KeyComparator(keys), c))
                  == Filter(s, SameRank(KeyComparator(keys), c)) {
      SortByStable(s, KeyComparator(keys), c);
    }
    SortBy(s, KeyComparator(keys))
  }

  /** The comparator tells distinct elements apart. */
  ghost predicate Antisymmetric<T(!new)>(cmp: (T, T) -> int) {
    forall x, y :: cmp(x, y) <= 0 && cmp(y, x) <= 0 ==> x == y
  }

  /** Under an antisymmetric comparator, two non-empty sorted permutations of each other start alike. */
  lemma SortedHeadsEqual<T(!new)>(a: seq<T>, b: seq<T>, cmp: (T, T) -> int)
    requires Total(cmp) && Antisymmetric(cmp)
    requires Sorted(a, cmp) && Sorted(b, cmp) && multiset(a) == multiset(b) && a != []
    ensures b != [] && a[0] == b[0]
  {
    assert |b| == |multiset(b)| == |a|;
    assert a[0] in multiset(b) && b[0] in multiset(a);
    var k :| 0 <= k < |b| && b[k] == a[0];
    var m :| 0 <= m < |a| && a[m] == b[0];
    if k > 0 { assert cmp(b[0], b[k]) <= 0; } else { assert cmp(a[0], a[0]) <= 0; }
    if m > 0 { assert cmp(a[0], a[m]) <= 0; }
  }

  /** Two permutations of each other with the same first element have permutations as tails. */
  lemma SameHeadTails<T>(a: seq<T>, b: seq<T>)
    requires a != [] && b != [] && a[0] == b[0] && multiset(a) == multiset(b)
    ensures multiset(a[1..]) == multiset(b[1..])
  {
    assert a == [a[0]] + a[1..] && b == [b[0]] + b[1..];
    assert multiset(a) == multiset{a[0]} + multiset(a[1..]);
    assert multiset(b) == multiset{a[0]} + multiset(b[1..]);
    assert multiset(a[1..]) == multiset(a) - multiset{a[0]};
    assert multiset(b[1..]) == multiset(b) - multiset{a[0]};
  }

  /** Under an antisymmetric comparator, two sorted permutations of each other are equal. */
  lemma {:induction false} SortedUnique<T(!new)>(a: seq<T>, b: seq<T>, cmp: (T, T) -> int)
    requires Total(cmp) && Antisymmetric(cmp)
    requires Sorted(a, cmp) && Sorted(b, cmp) && multiset(a) == multiset(b)
    ensures a == b
  {
    if a == [] {
      assert |b| == |multiset(b)| == 0;
    } else {
      SortedHeadsEqual(a, b, cmp);
      SameHeadTails(a, b);
      SortedUnique(a[1..], b[1..], cmp);
      assert a == [a[0]] + a[1..] && b == [b[0]] + b[1..];
    }
  }

  /**
   * Fisher–Yates from the back: a draw picks index `j` among the unfixed
   * elements, element `j` moves to the last unfixed place, the element that
   * was there takes place `j`, and the rest is shuffled the same way.
   * `draws` stands for the random numbers; a missing draw counts as 0.
   * The result is always a permutation of the input.
   */
  function Shuffle<T>(s: seq<T>, draws: seq<nat>): (r: seq<T>)
    ensures multiset(r) == multiset(s)
    decreases |s|
  {
    if s == [] then []
    else
      var n := |s| - 1;
      var j := (if draws == [] then 0 else draws[0]) % |s|;
      var rest := if j < n then s[..n][j := s[n]] else s[..n];
      assert s == s[..n] + [s[n]];
      assert j < n ==> multiset(rest) == multiset(s[..n]) - multiset{s[j]} + multiset{s[n]};
      Shuffle(rest, if draws == [] then [] else draws[1..]) + [s[j]]
  }

  function Identity(x: int): int {
    x
  }

  /** Sorting a shuffle by `sortBy` with an antisymmetric comparator gives the sorted original. */
  lemma ShuffleThenSortBy<T(!new)>(s: seq<T>, draws: seq<nat>, cmp: (T, T) -> int)
    requires IsComparator(cmp) && Antisymmetric(cmp)
    ensures SortBy(Shuffle(s, draws), cmp) == SortBy(s, cmp)
  {
    SortBySorted(Shuffle(s, draws), cmp);
    SortBySorted(s, cmp);
    SortedUnique(SortBy(Shuffle(s, draws), cmp), SortBy(s, cmp), cmp);
  }

  /** A shuffle of integers keeps every item: sorting it on the value gives the sorted original. */
  lemma ShuffleKeepsItems(s: seq<int>, draws: seq<nat>)
    ensures SortOn(Shuffle(s, draws), [Asc(Identity)]) == SortOn(s, [Asc(Identity)])
  {
    var keys := [Asc(Identity)];
    KeyComparatorIsComparator(keys);
    forall x: int, y: int | CompareOn(keys, x, y) <= 0 && CompareOn(keys, y, x) <= 0
      ensures x == y
    {
      CompareOnAntisymmetric(keys, x, y);
    }
    ShuffleThenSortBy(s, draws, KeyComparator(keys));
  }
}
