/**
 * Concrete expectations of the sequence test suite (tests/Seq.ts), stated
 * about the model: each lemma is one group of its assertions. Groups without a
 * lemma here: the constructors, the receiver-is-unchanged checks (every
 * operation is a function on values), the shuffle (its items are covered by
 * the general `ShuffleThenSortBy`), and operations this model leaves out
 * (string rendering, hash collections, equality against other types, streams,
 * string sort keys).
 */
module TestCases {
  import opened Wrappers
  import opened Access
  import opened Reorder
  import opened Slicing
  import opened Selection
  import opened Combination
  import opened Folds
  import opened Build
  import opened Sorting

  /** get, head, last, tail and single, including the absent cases. */
  lemma ValueExtraction()
    ensures Get([1, 2, 3, 4, 5, 6], 4) == Some(5)
    ensures Get(Prepend(1, [2, 3, 4, 5, 6]), 4) == Some(5)
    ensures Get([1, 2, 3], 4) == None && Get([1, 2, 3], -1) == None
    ensures Tail<int>([]) == None && Tail([1, 2, 3, 4]) == Some([2, 3, 4])
    ensures Tail(Prepend(1, [2, 3, 4])) == Some([2, 3, 4])
    ensures Head([1, 2, 3, 4, 5]) == Some(1) && Head<int>([]) == None
    ensures Last([1, 2, 3]) == Some(3) && Last<int>([]) == None
    ensures Head(PrependAll([4, 5], [1, 2, 3])) == Some(1)
    ensures Last(PrependAll([4, 5], [1, 2, 3])) == Some(5)
    ensures Single([5]) == Some(5) && Single([5, 6]) == None && Single<int>([]) == None
  {
  }

  /** take clamps its count to the length and to zero. */
  lemma TakeCases()
    ensures Take([1, 2, 3, 4, 5, 6], 3) == [1, 2, 3]
    ensures Take([1, 2, 3], 6) == [1, 2, 3] && Take([1, 2, 3], -1) == []
  {
  }

  /** dropRight of fewer elements than the length, and of more. */
  lemma DropRightCases()
    ensures DropRight([1, 2, 3, 4, 5, 6], 2) == [1, 2, 3, 4] && DropRight([1, 2], 3) == []
  {
  }

  /** drop of fewer elements than the length, and of more. */
  lemma DropCases()
    ensures Drop([1, 2, 3, 4, 5, 6], 3) == [4, 5, 6] && Drop([1, 2], 3) == []
  {
  }

  /** splitAt inside the sequence, at both ends and beyond them. */
  lemma SplitAtCases()
    ensures SplitAt([1, 2, 3, 4, 5], 3) == ([1, 2, 3], [4, 5]) && SplitAt([1, 2, 3], 1) == ([1], [2, 3])
    ensures SplitAt([1, 2, 3], 0) == ([], [1, 2, 3]) && SplitAt([1, 2, 3], -1) == ([], [1, 2, 3])
    ensures SplitAt([1, 2, 3], 3) == ([1, 2, 3], []) && SplitAt([1, 2, 3], 4) == ([1, 2, 3], [])
  {
    assert [1, 2, 3, 4, 5][..3] == [1, 2, 3] && [1, 2, 3, 4, 5][3..] == [4, 5];
    assert [1, 2, 3][..1] == [1] && [1, 2, 3][1..] == [2, 3];
  }

  predicate Below4(x: int) { x < 4 }
  predicate Below2(x: int) { x < 2 }
  predicate AtLeast4(x: int) { x >= 4 }
  predicate Above5(x: int) { x > 5 }
  predicate Below3(x: int) { x < 3 }
  predicate Odd(x: int) { x % 2 != 0 }
  predicate IsTwoOrThree(x: int) { x == 3 || x == 2 }
  predicate IsFive(x: int) { x == 5 }
  predicate IsThree(x: int) { x == 3 }

  lemma DropWhileAtFour()
    ensures DropWhile([3, 4, 3, 5, 6], Below4) == [4, 3, 5, 6]
  {
  }

  /** dropWhile stops at the first failing element and never resumes after a later match. */
  lemma DropWhileCase()
    ensures DropWhile([1, 2, 3, 4, 3, 5, 6], Below4) == [4, 3, 5, 6]
  {
    DropWhileAtFour();
    assert Below4(1) && Below4(2);
    assert [1, 2, 3, 4, 3, 5, 6][1..] == [2, 3, 4, 3, 5, 6];
    assert [2, 3, 4, 3, 5, 6][1..] == [3, 4, 3, 5, 6];
  }

  /** dropWhile removes only the leading run. */
  lemma DropWhileLeadingOnly()
    ensures DropWhile([1, 2, 3, 4, 3, 5, 6], Below2) == [2, 3, 4, 3, 5, 6]
  {
  }

  /** dropRightWhile stops at the last failing element. */
  lemma DropRightWhileCases()
    ensures DropRightWhile([1, 4, 2, 3, 4, 5, 6], AtLeast4) == [1, 4, 2, 3]
    ensures DropRightWhile([1, 4, 2, 3, 4, 5, 6], Above5) == [1, 4, 2, 3, 4, 5]
  {
    var t := [1, 4, 2, 3, 4, 5, 6];
    assert t[..6] == [1, 4, 2, 3, 4, 5];
    assert DropRightWhile(t, AtLeast4) == DropRightWhile([1, 4, 2, 3, 4, 5], AtLeast4);
    assert [1, 4, 2, 3, 4, 5][..5] == [1, 4, 2, 3, 4];
    assert DropRightWhile([1, 4, 2, 3, 4, 5], AtLeast4) == DropRightWhile([1, 4, 2, 3, 4], AtLeast4);
    assert [1, 4, 2, 3, 4][..4] == [1, 4, 2, 3];
    assert DropRightWhile([1, 4, 2, 3, 4], AtLeast4) == DropRightWhile([1, 4, 2, 3], AtLeast4);
    assert DropRightWhile(t, Above5) == DropRightWhile([1, 4, 2, 3, 4, 5], Above5);
  }

  /** span splits at the first failing element. */
  lemma SpanCase()
    ensures Span([1, 2, 3, 4, 5], Below3) == ([1, 2], [3, 4, 5])
  {
    var e: seq<int> := [];
    assert [1, 2, 3, 4, 5][1..] == [2, 3, 4, 5];
    assert [2, 3, 4, 5][1..] == [3, 4, 5];
    assert Span([3, 4, 5], Below3) == (e, [3, 4, 5]);
    assert [2] + e == [2];
    assert Span([2, 3, 4, 5], Below3) == ([2], [3, 4, 5]);
    assert [1] + [2] == [1, 2];
  }

  lemma DistinctByCaseTail()
    ensures DistinctFrom([3, 2, 3, 1], Identity, {1, 2}) == [3]
  {
  }

  /** distinctBy keeps the first occurrence of each key. */
  lemma DistinctByCase()
    ensures DistinctBy([1, 1, 2, 3, 2, 3, 1], Identity) == [1, 2, 3]
  {
    DistinctByCaseTail();
    var s := [1, 1, 2, 3, 2, 3, 1];
    assert s[1..] == [1, 2, 3, 2, 3, 1];
    assert [1, 2, 3, 2, 3, 1][1..] == [2, 3, 2, 3, 1];
    assert [2, 3, 2, 3, 1][1..] == [3, 2, 3, 1];
    assert DistinctFrom([2, 3, 2, 3, 1], Identity, {1}) == [2, 3];
    assert DistinctFrom([1, 2, 3, 2, 3, 1], Identity, {1}) == [2, 3];
    assert DistinctFrom(s, Identity, {}) == [1, 2, 3];
  }

  /** zip truncates to the shorter input. */
  lemma ZipCase()
    ensures Zip([1, 2, 3], ["a", "b"]) == [(1, "a"), (2, "b")]
  {
  }

  /** removeFirst removes the first match only. */
  lemma RemoveFirstCases()
    ensures RemoveFirst([0, 1, 2, 3, 4], IsTwoOrThree) == [0, 1, 3, 4]
  {
  }

  /** removeFirst changes nothing when no element matches, the empty sequence included. */
  lemma RemoveFirstAbsent()
    ensures RemoveFirst([0, 1, 2, 3, 4], IsFive) == [0, 1, 2, 3, 4]
    ensures RemoveFirst([], IsThree) == []
  {
  }

  lemma OddOnesBack()
    ensures Filter([5, 6, 7, 8], Odd) == [5, 7]
  {
  }

  lemma OddOnes()
    ensures Filter([1, 2, 3, 4, 5, 6, 7, 8], Odd) == [1, 3, 5, 7]
  {
    OddOnesBack();
    assert Odd(1) && !Odd(2) && Odd(3) && !Odd(4);
    assert [1, 2, 3, 4, 5, 6, 7, 8][1..] == [2, 3, 4, 5, 6, 7, 8];
    assert [2, 3, 4, 5, 6, 7, 8][1..] == [3, 4, 5, 6, 7, 8];
    assert [3, 4, 5, 6, 7, 8][1..] == [4, 5, 6, 7, 8];
    assert [4, 5, 6, 7, 8][1..] == [5, 6, 7, 8];
  }

  lemma EvenOnesBack()
    ensures Filter([5, 6, 7, 8], Not(Odd)) == [6, 8]
  {
    var e: seq<int> := [];
    assert Odd(5) && !Odd(6) && Odd(7) && !Odd(8);
    assert !Not(Odd)(5) && Not(Odd)(6) && !Not(Odd)(7) && Not(Odd)(8);
    assert [5, 6, 7, 8][1..] == [6, 7, 8] && [6, 7, 8][1..] == [7, 8] && [7, 8][1..] == [8] && [8][1..] == e;
  }

  lemma EvenOnes()
    ensures Filter([1, 2, 3, 4, 5, 6, 7, 8], Not(Odd)) == [2, 4, 6, 8]
  {
    EvenOnesBack();
    assert Odd(1) && !Odd(2) && Odd(3) && !Odd(4);
    assert !Not(Odd)(1) && Not(Odd)(2) && !Not(Odd)(3) && Not(Odd)(4);
    assert [1, 2, 3, 4, 5, 6, 7, 8][1..] == [2, 3, 4, 5, 6, 7, 8];
    assert [2, 3, 4, 5, 6, 7, 8][1..] == [3, 4, 5, 6, 7, 8];
    assert [3, 4, 5, 6, 7, 8][1..] == [4, 5, 6, 7, 8];
    assert [4, 5, 6, 7, 8][1..] == [5, 6, 7, 8];
  }

  /** partition splits by the predicate, each side in original order. */
  lemma PartitionCase()
    ensures Partition([1, 2, 3, 4, 5, 6, 7, 8], Odd) == ([1, 3, 5, 7], [2, 4, 6, 8])
  {
    OddOnes();
    EvenOnes();
  }

  lemma WindowsEvenTail()
    ensures Sliding([3, 4, 5, 6], 2) == [[3, 4], [5, 6]]
  {
    var e: seq<int> := [];
    assert [3, 4, 5, 6][..2] == [3, 4] && [3, 4, 5, 6][2..] == [5, 6];
    assert [5, 6][..2] == [5, 6] && [5, 6][2..] == e;
    assert Take([5, 6], 2) == [5, 6] && Drop([5, 6], 2) == e;
    assert Sliding([5, 6], 2) == [[5, 6]];
  }

  /** sliding cuts non-overlapping windows of the given size. */
  lemma WindowsEven()
    ensures Sliding([1, 2, 3, 4, 5, 6], 2) == [[1, 2], [3, 4], [5, 6]]
    ensures Sliding<int>([], 2) == []
  {
    WindowsEvenTail();
    var s := [1, 2, 3, 4, 5, 6];
    assert s[..2] == [1, 2] && s[2..] == [3, 4, 5, 6];
    assert Take(s, 2) == [1, 2] && Drop(s, 2) == [3, 4, 5, 6];
  }

  lemma WindowsUnevenTail()
    ensures Sliding([4, 5, 6, 7], 3) == [[4, 5, 6], [7]]
  {
    var e: seq<int> := [];
    assert [4, 5, 6, 7][..3] == [4, 5, 6] && [4, 5, 6, 7][3..] == [7];
    assert [7][..1] == [7] && [7][1..] == e;
    assert Take([7], 3) == [7] && Drop([7], 3) == e;
    assert Sliding([7], 3) == [[7]];
  }

  /** The last window is shorter when the size does not divide the length. */
  lemma WindowsUneven()
    ensures Sliding([1, 2, 3, 4, 5, 6, 7], 3) == [[1, 2, 3], [4, 5, 6], [7]]
  {
    WindowsUnevenTail();
    var t := [1, 2, 3, 4, 5, 6, 7];
    assert t[..3] == [1, 2, 3] && t[3..] == [4, 5, 6, 7];
    assert Take(t, 3) == [1, 2, 3] && Drop(t, 3) == [4, 5, 6, 7];
  }

  /** Folds in both directions, with the accumulator on either side. */
  lemma FoldCases()
    ensures FoldLeft(["a", "b", "c"], "!", (xs: string, x: string) => x + xs) == "cba!"
    ensures FoldRight(["a", "b", "c"], "!", (x: string, xs: string) => xs + x) == "!cba"
  {
  }

  /** The seeded scans of the empty sequence hold only the seed. */
  lemma ScanCases()
    ensures ScanLeft([], 0, (i: int, j: int) => i + j) == [0]
    ensures ScanRight([], 0, (j: int, i: int) => i + j) == [0]
  {
  }

  /** allMatch and anyMatch on matching, non-matching and empty inputs. */
  lemma MatchCases()
    ensures AllMatch([2, 4, 8], (x: int) => x % 2 == 0) && !AllMatch([2, 5, 8], (x: int) => x % 2 == 0)
    ensures AllMatch([], (x: int) => x % 2 == 0)
    ensures AnyMatch([3, 5, 8], (x: int) => x % 2 == 0) && !AnyMatch([3, 5, 9], (x: int) => x % 2 == 0)
    ensures !AnyMatch([], (x: int) => x % 2 == 0)
  {
  }

  /** find returns the first match, or nothing when no element matches. */
  lemma FindCases()
    ensures Find([1, 2, 3], (x: int) => x >= 2) == Some(2) && Find([1, 2, 3], (x: int) => x >= 4) == None
  {
  }

  /** The count-down step of the unfoldRight test. */
  function CountDown(x: nat): Option<(int, nat)> {
    if x != 0 then Some((x, x - 1)) else None
  }

  function CountDownMeasure(x: nat): nat {
    x
  }

  lemma CountDownProgresses()
    ensures Progresses(CountDown, CountDownMeasure)
  {
  }

  /** unfoldRight with the count-down step from `n` gives `n, n - 1, ..., 1`. */
  lemma {:induction false} CountDownFrom(n: nat)
    ensures Progresses(CountDown, CountDownMeasure)
    ensures var r := UnfoldRight(n, CountDown, CountDownMeasure);
      |r| == n && forall i :: 0 <= i < n ==> r[i] == n - i
  {
    CountDownProgresses();
    if n > 0 {
      CountDownFrom(n - 1);
    }
  }

  /** unfoldRight from 10 counts down to 1. */
  lemma Unfolding()
    ensures Progresses(CountDown, CountDownMeasure)
    ensures UnfoldRight(10, CountDown, CountDownMeasure) == [10, 9, 8, 7, 6, 5, 4, 3, 2, 1]
  {
    CountDownFrom(10);
  }

  /** A record of the multiple-criteria sorting tests: an integer and a boolean field. */
  datatype Row = Row(a: int, b: bool)

  function FieldA(r: Row): int {
    r.a
  }

  /** `true` sorts after `false`. */
  function FieldB(r: Row): int {
    if r.b then 1 else 0
  }

  /** The comparator of the sortBy test: the larger value first. */
  function Descending(x: int, y: int): int {
    y - x
  }

  lemma SortByDescendingPair()
    ensures SortBy([3, 4], Descending) == [4, 3]
  {
  }

  lemma SortByDescendingTail()
    ensures SortBy([2, 3, 4], Descending) == [4, 3, 2]
  {
    var e: seq<int> := [];
    SortByDescendingPair();
    assert [2, 3, 4][1..] == [3, 4];
    assert [4, 3][1..] == [3] && [3][1..] == e;
    assert Insert(2, e, Descending) == [2];
    assert Insert(2, [3], Descending) == [3, 2];
  }

  lemma InsertOneLast()
    ensures Insert(1, [4, 3, 2], Descending) == [4, 3, 2, 1]
  {
  }

  /** sortBy with a comparator that puts the larger value first. */
  lemma SortByDescending()
    ensures SortBy([1, 2, 3, 4], Descending) == [4, 3, 2, 1]
  {
    SortByDescendingTail();
    InsertOneLast();
    assert [1, 2, 3, 4][1..] == [2, 3, 4];
  }

  lemma AscendingThenDescendingPair()
    ensures SortBy([Row(2, false), Row(1, false)], KeyComparator([Asc(FieldA), Desc(FieldB)]))
         == [Row(1, false), Row(2, false)]
  {
  }

  /** Equal on the integer, the descending boolean key puts `true` first. */
  lemma AscendingThenDescendingTie()
    ensures KeyComparator([Asc(FieldA), Desc(FieldB)])(Row(1, true), Row(1, false)) == -1
  {
    var r1, r3 := Row(1, true), Row(1, false);
    var keys := [Asc(FieldA), Desc(FieldB)];
    assert keys[1..] == [Desc(FieldB)] && [Desc(FieldB)][1..] == [];
    assert CompareKey(Asc(FieldA), r1, r3) == 0 && CompareKey(Desc(FieldB), r1, r3) == -1;
    assert CompareOn([Desc(FieldB)], r1, r3) == -1;
  }

  /** sortOn on two keys, ascending on the integer and descending on the boolean. */
  lemma AscendingThenDescending()
    ensures SortOn([Row(1, true), Row(2, false), Row(1, false)], [Asc(FieldA), Desc(FieldB)])
         == [Row(1, true), Row(1, false), Row(2, false)]
  {
    var r1, r2, r3 := Row(1, true), Row(2, false), Row(1, false);
    AscendingThenDescendingPair();
    AscendingThenDescendingTie();
    assert [r1, r2, r3][1..] == [r2, r3];
  }

  /** The first two insertion steps of the boolean-first sort. */
  lemma BooleanFirstTail()
    ensures SortBy([Row(2, false), Row(1, false)], KeyComparator([Asc(FieldB), Asc(FieldA)]))
         == [Row(1, false), Row(2, false)]
  {
    var r2, r3 := Row(2, false), Row(1, false);
    var keys := [Asc(FieldB), Asc(FieldA)];
    var cmp := KeyComparator(keys);
    assert [r2, r3][1..] == [r3];
    assert SortBy([r3], cmp) == [r3];
    assert keys[1..] == [Asc(FieldA)] && [Asc(FieldA)][1..] == [];
    assert CompareOn([Asc(FieldA)], r2, r3) == 1;
    assert cmp(r2, r3) == 1;
  }

  /** sortOn on two keys, both ascending, the boolean first. */
  lemma BooleanFirst()
    ensures SortOn([Row(1, true), Row(2, false), Row(1, false)], [Asc(FieldB), Asc(FieldA)])
         == [Row(1, false), Row(2, false), Row(1, true)]
  {
    var r1, r2, r3 := Row(1, true), Row(2, false), Row(1, false);
    var keys := [Asc(FieldB), Asc(FieldA)];
    var cmp := KeyComparator(keys);
    BooleanFirstTail();
    assert [r1, r2, r3][1..] == [r2, r3];
    assert cmp(r1, r3) == 1 && cmp(r1, r2) == 1;
    assert [r3, r2][1..] == [r2];
    assert Insert(r1, [r2], cmp) == [r2, r1];
  }

  /** On the value itself, the key comparison is the sign of the difference. */
  lemma CompareOnValue(x: int, y: int)
    ensures KeyComparator([Asc(Identity)])(x, y) == if x < y then -1 else if x > y then 1 else 0
  {
  }

  /** The first three insertion steps of sorting `[4, 2, 3, 1]` on the value. */
  lemma SortOnValueTail()
    ensures SortBy([2, 3, 1], KeyComparator([Asc(Identity)])) == [1, 2, 3]
  {
  }

  lemma InsertFourLast()
    ensures Insert(4, [2, 3], KeyComparator([Asc(Identity)])) == [2, 3, 4]
  {
  }

  lemma SortByValue()
    ensures SortBy([4, 2, 3, 1], KeyComparator([Asc(Identity)])) == [1, 2, 3, 4]
  {
    SortOnValueTail();
    InsertFourLast();
    CompareOnValue(4, 1);
    assert [4, 2, 3, 1][1..] == [2, 3, 1];
    assert [1, 2, 3][1..] == [2, 3];
  }

  /** sortOn on the value itself. */
  lemma SortOnValue()
    ensures SortOn([4, 2, 3, 1], [Asc(Identity)]) == [1, 2, 3, 4]
  {
    SortByValue();
  }

  /** prepend, and append, appendAll and prependAll after it. */
  lemma PrependCases()
    ensures Prepend(1, [2, 3, 4]) == [1, 2, 3, 4]
    ensures Append(Prepend(1, [2, 3, 4]), 5) == Append([1, 2, 3, 4], 5)
    ensures AppendAll(Prepend(1, [2, 3, 4]), [5, 6]) == AppendAll([1, 2, 3, 4], [5, 6])
    ensures PrependAll([4, 5], [1, 2, 3]) == [1, 2, 3, 4, 5]
  {
  }

  /** append and appendAll on [1, 2, 3]. */
  lemma AppendCases()
    ensures Append([1, 2, 3], 4) == [1, 2, 3, 4]
    ensures AppendAll([1, 2, 3], [4, 5]) == [1, 2, 3, 4, 5]
  {
  }

  /** contains on a present value, an absent value and the empty sequence. */
  lemma ContainsCases()
    ensures Contains([1, 2, 3], 2) && !Contains([1, 2, 3], 4) && !Contains([], 4)
  {
  }

  function Plus(a: int, b: int): int {
    a + b
  }

  /** fold (the left fold) sums 1, 2, 3 to 6. */
  lemma FoldSum()
    ensures FoldLeft([1, 2, 3], 0, Plus) == 6
  {
  }

  /** reverse, of the empty sequence too, and after a prepend. */
  lemma ReverseCases()
    ensures Reverse([1, 2, 3]) == [3, 2, 1]
    ensures Reverse<int>([]) == []
    ensures Reverse(Prepend(1, [2, 3])) == [3, 2, 1]
  {
  }

  predicate KeyBelow3(p: (int, string)) { p.0 < 3 }

  /** zip followed by takeWhile on the left component. */
  lemma ZipThenTakeWhile()
    ensures TakeWhile(Zip([1, 2, 3], ["a", "b", "c"]), KeyBelow3) == [(1, "a"), (2, "b")]
  {
  }

  function AddFour(x: int): int {
    x + 4
  }

  /** `x` copies of `x`, as the flatMap test builds them. */
  function Copies(x: int): seq<int> {
    if x <= 0 then [] else seq(x, _ => x)
  }

  function EvenSuccessor(x: int): Option<int> {
    if x % 2 == 0 then Some(x + 1) else None
  }

  /** map adds 4 to each element. */
  lemma MapCase()
    ensures Map([1, 2, 3], AddFour) == [5, 6, 7]
  {
  }

  /** flatMap concatenates `x` copies of each `x`. */
  lemma FlatMapCase()
    ensures FlatMap([1, 2, 3, 4], Copies) == [1, 2, 2, 3, 3, 3, 4, 4, 4, 4]
  {
  }

  lemma MapOptionBack()
    ensures MapOption([4, 5, 6], EvenSuccessor) == [5, 7]
  {
  }

  lemma MapOptionMiddle()
    ensures MapOption([2, 3, 4, 5, 6], EvenSuccessor) == [3, 5, 7]
  {
    MapOptionBack();
    assert [2, 3, 4, 5, 6][1..] == [3, 4, 5, 6] && [3, 4, 5, 6][1..] == [4, 5, 6];
    assert MapOption([3, 4, 5, 6], EvenSuccessor) == [5, 7];
  }

  /** mapOption keeps the successors of the even elements. */
  lemma MapOptionCase()
    ensures MapOption([1, 2, 3, 4, 5, 6], EvenSuccessor) == [3, 5, 7]
  {
    MapOptionMiddle();
    assert [1, 2, 3, 4, 5, 6][1..] == [2, 3, 4, 5, 6];
  }

  predicate Even(x: int) { x % 2 == 0 }

  /** filter keeps the even elements, also after two prepends. */
  lemma FilterCases()
    ensures Filter([1, 2, 3, 4], Even) == [2, 4]
    ensures Filter(Prepend(1, Prepend(2, [3, 4])), Even) == [2, 4]
  {
  }

  function Mod3(x: int): int {
    x % 3
  }

  /** distinctBy on the empty sequence, on one value, and after a prepend. */
  lemma DistinctByEdges()
    ensures DistinctBy([], Identity) == []
    ensures DistinctBy([1], Identity) == [1]
    ensures DistinctBy(Prepend(1, [2, 3, 2, 3, 1]), Identity) == [1, 2, 3]
  {
  }

  lemma DistinctByModuloTail()
    ensures DistinctFrom([3, 2, 3, 1], Mod3, {0, 1, 2}) == []
  {
  }

  lemma DistinctByModuloMiddle()
    ensures DistinctFrom([1, 2, 3, 2, 3, 1], Mod3, {1, 0}) == [2]
  {
    DistinctByModuloTail();
    assert Mod3(1) == 1 && Mod3(2) == 2;
    assert [1, 2, 3, 2, 3, 1][1..] == [2, 3, 2, 3, 1];
    assert [2, 3, 2, 3, 1][1..] == [3, 2, 3, 1];
    assert {1, 0} + {2} == {0, 1, 2};
  }

  /** distinctBy on the key `x % 3` keeps the first element of each residue. */
  lemma DistinctByModulo()
    ensures DistinctBy([1, 0, 1, 2, 3, 2, 3, 1], Mod3) == [1, 0, 2]
  {
    DistinctByModuloMiddle();
    var s := [1, 0, 1, 2, 3, 2, 3, 1];
    assert Mod3(1) == 1 && Mod3(0) == 0;
    assert s[1..] == [0, 1, 2, 3, 2, 3, 1];
    assert [0, 1, 2, 3, 2, 3, 1][1..] == [1, 2, 3, 2, 3, 1];
    assert {} + {1} == {1} && {1} + {0} == {1, 0};
  }

  /** dropWhile with a predicate every element meets, and with one none meets. */
  lemma DropWhileAllOrNothing()
    ensures DropWhile([1, 2, 3, 4, 3, 5, 6], NonNegative) == []
    ensures DropWhile([1, 2, 3, 4, 3, 5, 6], Negative) == [1, 2, 3, 4, 3, 5, 6]
  {
    var s := [1, 2, 3, 4, 3, 5, 6];
    assert forall i :: 0 <= i < |s| ==> NonNegative(s[i]) by {
      forall i | 0 <= i < |s| ensures NonNegative(s[i]) {
        assert s[i] in s;
      }
    }
    WhileAllMatch(s, NonNegative);
    WhileFirstFails(s, Negative);
  }

  /** dropRightWhile with a predicate every element meets, and with one none meets. */
  lemma DropRightWhileAllOrNothing()
    ensures DropRightWhile([1, 4, 2, 3, 4, 5, 6], NonNegative) == []
    ensures DropRightWhile([1, 4, 2, 3, 4, 5, 6], Negative) == [1, 4, 2, 3, 4, 5, 6]
  {
  }

  /** span with a predicate every element meets, and with one none meets. */
  lemma SpanAllOrNothing()
    ensures Span([1, 2, 3, 4, 5], Below9) == ([1, 2, 3, 4, 5], [])
    ensures Span([1, 2, 3, 4, 5], Negative) == ([], [1, 2, 3, 4, 5])
  {
    SpanAllMatch([1, 2, 3, 4, 5], Below9);
    WhileFirstFails([1, 2, 3, 4, 5], Negative);
  }

  predicate NonNegative(x: int) { x >= 0 }
  predicate Negative(x: int) { x < 0 }
  predicate Below9(x: int) { x < 9 }

  datatype Item = Item(name: string, rank: int)

  function Rank(x: Item): int {
    x.rank
  }

  lemma CompareOnRank(x: Item, y: Item)
    ensures KeyComparator([Asc(Rank)])(x, y) == if x.rank < y.rank then -1 else if x.rank > y.rank then 1 else 0
  {
  }

  lemma SortByRank()
    ensures SortBy([Item("test", 2), Item("zz", 1), Item("b", 3)], KeyComparator([Asc(Rank)]))
         == [Item("zz", 1), Item("test", 2), Item("b", 3)]
  {
  }

  /** sortOn a numeric field of a record. */
  lemma SortOnField()
    ensures SortOn([Item("test", 2), Item("zz", 1), Item("b", 3)], [Asc(Rank)])
         == [Item("zz", 1), Item("test", 2), Item("b", 3)]
  {
    SortByRank();
  }
}
