# Seq operation algebra

This project models the sequence collection (`Seq`) of a functional
TypeScript collections library. The model follows the behaviour that the shared
sequence test suite pins down for every `Seq` implementation: the list, the
vector and the lazy stream run the same assertions. A `Seq` is an immutable
finite sequence, modelled as Dafny's `seq<T>`. Every operation is a pure function
that returns a new sequence and never changes its receiver. Absent values
(`Option.none`) are `Wrappers.Option`.

Layout, one module per family of operations:

- `Wrappers`: `Option`.
- `Access`: `get`, `head`, `last`, `tail`, `single`.
- `Reorder`: `append`, `prepend`, `appendAll`, `prependAll`, `reverse`.
- `Slicing`: `take`, `drop`, `dropRight`, `splitAt`, `takeWhile`, `dropWhile`,
  `dropRightWhile`, `span`, and JavaScript's `Array.prototype.slice` as a
  reference.
- `Selection`: `filter`, `partition`, `find`, `contains`, `removeFirst`,
  `distinctBy`.
- `Combination`: `map`, `flatMap`, `mapOption`, `zip`, `sliding`.
- `Folds`: `foldLeft`, `foldRight`, `scanLeft`, `scanRight`, `allMatch`,
  `anyMatch`.
- `Build`: `unfoldRight`.
- `Sorting`: `sortBy`, `sortOn` over ascending and descending keys, `shuffle`.
- `TestCases`: the concrete expectations of the test suite, one lemma per
  group of assertions. Groups without a lemma: the constructors, the checks that
  the receiver is unchanged (every operation here is a function on values), the
  shuffle (its items are covered by the general `ShuffleThenSortBy`), and the
  operations listed under "Left out".

Element access (`get`), the one-element additions (`append`, `prepend`), the
two folds and JavaScript's `slice` are plain definitions: the body is the
meaning, and lemmas state their laws. The derived operations are recursive
definitions. Most of their contracts give the closed form directly, as a slice,
an index characterisation or an equality with a reference definition. For some
operations the contract gives only part of the meaning, and a named lemma
gives the rest:
- the elements of `Reverse` are stated by `ReverseAt`;
- the order and multiplicities of `Filter` are stated by `FilterIsSubsequence` and `FilterCounts`;
- which element of each key `DistinctBy` keeps is stated by `DistinctByIsFirstOccurrences`;
- the elements of `UnfoldRight` are stated by `UnfoldRightTrace`;
- the two folds are tied together by `FoldLeftIsFoldRightOfReverse`.

## Model

| member | source | states |
|---|---|---|
| Access.Get | tests/Seq.ts:397-404 | the body is the definition: the element at the index when `0 <= i < length`, absent otherwise; `GetAfterPrepend`, `Head` and `Last` state its laws |
| Access.Head | tests/Seq.ts:417-422 | the first element is `get(0)`; it is absent exactly when the sequence is empty |
| Access.Last | tests/Seq.ts:411-416 | the last element is `get(length-1)`; it is absent exactly when the sequence is empty |
| Access.Tail | tests/Seq.ts:405-410 | absent exactly on the empty sequence; otherwise one element shorter, and the head followed by it gives back the input |
| Access.Single | tests/Seq.ts:423-428 | present exactly when the length is 1, and then the sequence is that one element |
| Access.HeadTailRoundTrip | tests/Seq.ts:405-422 | on a non-empty sequence both head and tail are present, and head followed by tail is the sequence |
| Reorder.Append | tests/Seq.ts:262-263 | the body is the definition: the sequence followed by one element; `AppendThenLast` and `AppendAll` state its laws |
| Reorder.Prepend | tests/Seq.ts:55-60 | the body is the definition: one element followed by the sequence; `PrependThenTail`, `GetAfterPrepend` and `PrependAll` state its laws |
| Reorder.AppendThenLast | tests/Seq.ts:262-268 | after `append(x)` the last element is `x` and the original sequence is the untouched prefix |
| Reorder.PrependThenTail | tests/Seq.ts:55-62 | after `prepend(x)` the head is `x` and the tail is the original sequence |
| Reorder.GetAfterPrepend | tests/Seq.ts:397-400 | `get(i)` after `prepend(x)` is `x` at 0 and `get(i-1)` of the original elsewhere, including out-of-range indices |
| Reorder.AppendAll | tests/Seq.ts:269-289 | `appendAll(xs)` is the receiver followed by `xs`, and the receiver is unchanged |
| Reorder.PrependAll | tests/Seq.ts:67-68 | `prependAll(xs)` is `xs` followed by the receiver |
| Reorder.PrependAllEnds | tests/Seq.ts:415-422 | after `prependAll` the head comes from the prepended part and the last element from the receiver |
| Reorder.Reverse | tests/Seq.ts:220-225 | the reverse has the same length as the input (its elements are given by `ReverseAt`) |
| Reorder.ReverseAt | tests/Seq.ts:220-225 | element `k` of the reverse is element `length-1-k` of the input, with the same length |
| Reorder.ReverseConcat | tests/Seq.ts:224-225 | reversing a concatenation reverses the order of the parts |
| Reorder.ReverseInvolution | tests/Seq.ts:301-304 | reversing twice gives back the input |
| Slicing.ArraySlice | tests/Seq.ts:305-309 | the body is the definition of JavaScript's `slice(start, end)`: negative bounds count from the end, bounds are clamped, and a reversed range is empty; `TakeIsArraySlice` relates it to `Take` |
| Slicing.Clamp | tests/Seq.ts:290-295 | a count is clamped into `[0, length]`: negative counts become 0, too-large counts become the length |
| Slicing.Take | tests/Seq.ts:290-300 | `take(n)` is the prefix of clamped length `n` |
| Slicing.TakeIsArraySlice | tests/Seq.ts:305-309 | `take(n)` equals JavaScript `slice(0, max(0, n))` on the same elements, for every integer `n` |
| Slicing.Drop | tests/Seq.ts:367-370 | `drop(n)` is the suffix after the clamped count |
| Slicing.DropRight | tests/Seq.ts:188-191 | `dropRight(n)` is the prefix that leaves out the last clamped-`n` elements |
| Slicing.SplitAt | tests/Seq.ts:377-388 | the two parts concatenate to the input and the first has the clamped length |
| Slicing.TakeWhile | tests/Seq.ts:250-252 | the longest prefix whose elements all satisfy the predicate: all its elements match and the next one does not |
| Slicing.DropWhile | tests/Seq.ts:351-354 | a suffix whose dropped prefix all matches and whose first element fails |
| Slicing.DropRightWhile | tests/Seq.ts:359-362 | a prefix whose dropped suffix all matches and whose last element fails |
| Slicing.Span | tests/Seq.ts:389-395 | the parts concatenate to the input; the first part all matches and the second starts with a failing element |
| Slicing.SpanIsTakeDropWhile | tests/Seq.ts:389-395 | `span` is the pair (`takeWhile`, `dropWhile`) of the same predicate |
| Slicing.WhileFirstFails | tests/Seq.ts:355-358 | when the first element fails, `dropWhile` keeps everything and `span`'s prefix is empty |
| Slicing.WhileLastFails | tests/Seq.ts:363-366 | when the last element fails, `dropRightWhile` keeps everything |
| Slicing.WhileAllMatch | tests/Seq.ts:355-366 | when every element matches, `dropWhile` and `dropRightWhile` leave nothing |
| Slicing.SpanAllMatch | tests/Seq.ts:391-392 | when every element matches, `span` puts the whole input in its first part |
| Selection.Filter | tests/Seq.ts:321-326 | the result is no longer than the input and all its elements satisfy the predicate |
| Selection.FilterIsSubsequence | tests/Seq.ts:321-326 | what `filter` keeps is a subsequence of the input, so the original order is kept |
| Selection.FilterCounts | tests/Seq.ts:321-326 | `filter` keeps no element that is not in the input, and keeps every matching element with its full multiplicity |
| Selection.FilterConcat | tests/Seq.ts:324-326 | filtering distributes over concatenation, so a prepended element is filtered like the rest |
| Selection.FilterComplement | tests/Seq.ts:226-229 | what the predicate keeps and what its negation keeps add up to the input, both in length and as a multiset |
| Selection.Partition | tests/Seq.ts:226-229 | the two sides are `filter(p)` and `filter(not p)`, their lengths add up to the input's and their multisets to its multiset |
| Selection.IndexWhere | tests/Seq.ts:123-126 | the index of the first matching element: it matches and every earlier one fails; absent only when nothing matches |
| Selection.Find | tests/Seq.ts:123-126 | `find` is absent exactly when nothing matches, and otherwise is the first matching element |
| Selection.Contains | tests/Seq.ts:80-89 | `contains(x)` holds exactly when `x` occurs in the sequence |
| Selection.RemoveFirst | tests/Seq.ts:371-376 | only the first matching element is removed, and the sequence is unchanged when nothing matches |
| Selection.KeysOf | tests/Seq.ts:341-350 | the key of every element is in the key set |
| Selection.DistinctFrom | tests/Seq.ts:341-350 | a subsequence with pairwise-distinct keys, none of them already seen, covering every unseen key of the input |
| Selection.DistinctBy | tests/Seq.ts:341-350 | a subsequence with pairwise-distinct keys that covers every key of the input; which element of each key is kept is stated by `DistinctByIsFirstOccurrences` |
| Selection.KeysOfSnoc | tests/Seq.ts:341-350 | adding an element at the end adds its key to the key set |
| Selection.DistinctFromSnoc | tests/Seq.ts:341-350 | adding an element at the end keeps it exactly when its key is new |
| Selection.DistinctByIsFirstOccurrences | tests/Seq.ts:341-350 | `distinctBy` keeps exactly the first occurrence of each key, in order |
| Combination.Map | tests/Seq.ts:257-258 | same length, and element `i` is `f` of input element `i` |
| Combination.MapConcat | tests/Seq.ts:257-258 | mapping distributes over concatenation |
| Combination.FlattenConcat | tests/Seq.ts:253-256 | flattening distributes over concatenation |
| Combination.FlatMap | tests/Seq.ts:253-256 | `flatMap(f)` is the concatenation of the results of `map(f)` |
| Combination.MapOption | tests/Seq.ts:259-261 | the present results of mapping, in order: wrapping them again gives the defined results of `map(f)` |
| Combination.Zip | tests/Seq.ts:246-252 | length of the shorter input, and pair `i` is (`left[i]`, `right[i]`) |
| Combination.ZipLeft | tests/Seq.ts:246-247 | the left components of a zip are the left input cut to the shorter length |
| Combination.Sliding | tests/Seq.ts:310-318 | the windows flatten back to the input; each window is non-empty with at most `k` elements; all but the last have exactly `k` elements |
| Folds.FoldLeft | tests/Seq.ts:129-131 | the body is the definition: the left fold from the seed; `FoldLeftSnoc`, `FoldLeftIsFoldRightOfReverse` and `ScanLeft` state its laws |
| Folds.FoldRight | tests/Seq.ts:132-134 | the body is the definition: the right fold onto the seed; `FoldRightConcat`, `FoldLeftIsFoldRightOfReverse` and `ScanRight` state its laws |
| Folds.FoldLeftSnoc | tests/Seq.ts:127-131 | `foldLeft` over `s + [x]` applies `f` to the fold of `s` and `x` |
| Folds.FoldRightConcat | tests/Seq.ts:132-134 | `foldRight` over `a + b` folds `a` onto the fold of `b` |
| Folds.FoldLeftIsFoldRightOfReverse | tests/Seq.ts:129-134 | `foldLeft` is `foldRight` of the reverse, with the argument order of `f` flipped |
| Folds.ScanLeft | tests/Seq.ts:135-136 | one more element than the input, and element `i` is the `foldLeft` of the first `i` elements |
| Folds.ScanRight | tests/Seq.ts:137-138 | one more element than the input, and element `i` is the `foldRight` of the elements from `i` on |
| Folds.AllMatch | tests/Seq.ts:90-95 | holds exactly when every element satisfies the predicate, so it holds on the empty sequence |
| Folds.AnyMatch | tests/Seq.ts:96-101 | holds exactly when some element satisfies the predicate, so it fails on the empty sequence |
| Folds.AnyMatchIsNotAllMatchNot | tests/Seq.ts:90-101 | `anyMatch(p)` is the negation of `allMatch(not p)` |
| Build.UnfoldRight | tests/Seq.ts:48-52 | for a step function with a decreasing measure: at most measure-of-seed elements, and empty exactly when the first step stops |
| Build.UnfoldRightTrace | tests/Seq.ts:48-52 | element `i` is the value produced by the step after `i` earlier steps, and the step stops after the last element |
| Sorting.Insert | tests/Seq.ts:197-199 | inserting adds exactly that element to the multiset |
| Sorting.SortBy | tests/Seq.ts:197-199 | `sortBy` returns a permutation of the input |
| Sorting.InsertSorted | tests/Seq.ts:197-199 | inserting into a sorted sequence keeps it sorted under a total, transitive comparator |
| Sorting.SortBySorted | tests/Seq.ts:197-199 | the result of `sortBy` is sorted under a total, transitive comparator |
| Sorting.FilterSwapAdjacent | tests/Seq.ts:200-209 | swapping two adjacent elements that are not both in a class leaves that class's subsequence unchanged |
| Sorting.FilterCons | tests/Seq.ts:200-209 | putting the same element in front keeps two equal class subsequences equal |
| Sorting.InsertStable | tests/Seq.ts:200-209 | insertion never reorders elements that compare equal to each other |
| Sorting.SortByStable | tests/Seq.ts:200-209 | `sortBy` is stable: elements that compare equal keep their input order |
| Sorting.CompareOn | tests/Seq.ts:453-478 | the lexicographic comparison is -1, 0 or 1, and it is 0 exactly when every key agrees |
| Sorting.CompareOnAntisymmetric | tests/Seq.ts:453-478 | swapping the arguments negates the comparison |
| Sorting.CompareOnTransitive | tests/Seq.ts:453-478 | the comparison is transitive |
| Sorting.KeyComparatorIsComparator | tests/Seq.ts:453-478 | the comparator built from a key list is total and transitive |
| Sorting.SortOn | tests/Seq.ts:200-209 | `sortOn` gives a permutation, ordered lexicographically by the keys, and stable for elements with equal keys |
| Sorting.SortedHeadsEqual | tests/Seq.ts:436-443 | two sorted permutations of each other under an antisymmetric comparator start with the same element |
| Sorting.SameHeadTails | tests/Seq.ts:436-443 | permutations that share their head have tails that are permutations of each other |
| Sorting.SortedUnique | tests/Seq.ts:436-443 | two sorted permutations of each other under a total, antisymmetric comparator are equal |
| Sorting.Shuffle | tests/Seq.ts:430-443 | the shuffle is a permutation of the input, whatever the random draws |
| Sorting.ShuffleThenSortBy | tests/Seq.ts:436-443 | sorting a shuffle gives the same result as sorting the original, for an antisymmetric comparator |
| Sorting.ShuffleKeepsItems | tests/Seq.ts:436-443 | `sortOn(x => x)` of a shuffle equals `sortOn(x => x)` of the original |
| TestCases.ValueExtraction | tests/Seq.ts:397-428 | the expected `get`, `tail` (also after a prepend), `last`, `head` and `single` results, including the absent cases |
| TestCases.TakeCases | tests/Seq.ts:290-295 | the expected `take` results for an in-range, a too-large and a negative count |
| TestCases.DropRightCases | tests/Seq.ts:188-191 | `dropRight(2)` of 1..6 is 1..4, and dropping more than the length leaves nothing |
| TestCases.DropCases | tests/Seq.ts:367-370 | `drop(3)` of 1..6 is [4,5,6], and dropping more than the length leaves nothing |
| TestCases.SplitAtCases | tests/Seq.ts:377-388 | the six expected `splitAt` results: inside, at both ends, and beyond both ends |
| TestCases.DropWhileCase | tests/Seq.ts:351-352 | `dropWhile(x < 4)` stops at the first 4 and keeps the later 3 |
| TestCases.DropWhileLeadingOnly | tests/Seq.ts:353-354 | `dropWhile(x < 2)` removes only the leading 1 |
| TestCases.DropRightWhileCases | tests/Seq.ts:359-362 | the two expected `dropRightWhile` results |
| TestCases.SpanCase | tests/Seq.ts:389-390 | `span(i < 3)` of 1..5 is ([1,2], [3,4,5]) |
| TestCases.DistinctByCase | tests/Seq.ts:341-342 | `distinctBy(x => x)` of [1,1,2,3,2,3,1] is [1,2,3] |
| TestCases.ZipCase | tests/Seq.ts:246-247 | zipping [1,2,3] with ["a","b"] gives two pairs |
| TestCases.RemoveFirstCases | tests/Seq.ts:371-372 | `removeFirst` drops only the first of 2 and 3 |
| TestCases.RemoveFirstAbsent | tests/Seq.ts:373-376 | `removeFirst` changes nothing when 5 is absent, and leaves the empty sequence empty |
| TestCases.PartitionCase | tests/Seq.ts:226-229 | partitioning 1..8 by oddness gives [1,3,5,7] and [2,4,6,8] |
| TestCases.WindowsEven | tests/Seq.ts:310-318 | `sliding(2)` of 1..6 is three pairs, and the empty sequence has no windows |
| TestCases.WindowsUneven | tests/Seq.ts:313-315 | `sliding(3)` of 1..7 ends with the one-element window [7] |
| TestCases.FoldCases | tests/Seq.ts:129-134 | the expected `foldLeft` and `foldRight` strings "cba!" and "!cba" |
| TestCases.ScanCases | tests/Seq.ts:135-138 | `scanLeft` and `scanRight` of the empty sequence are [0] |
| TestCases.MatchCases | tests/Seq.ts:90-101 | the expected positive, negative and empty-sequence `allMatch` and `anyMatch` results |
| TestCases.FindCases | tests/Seq.ts:123-126 | `find(x >= 2)` of [1,2,3] is 2, and `find(x >= 4)` is absent; the two tests return these booleans without asserting them, so as written they cannot fail (read from the source, not executed) |
| TestCases.CountDownProgresses | tests/Seq.ts:48-52 | the count-down step of the test decreases its seed |
| TestCases.CountDownFrom | tests/Seq.ts:48-52 | unfolding the count-down from `n` gives `n, n-1, …, 1` |
| TestCases.Unfolding | tests/Seq.ts:48-52 | `unfoldRight` from 10 gives 10 down to 1 |
| TestCases.SortByDescending | tests/Seq.ts:197-199 | `sortBy((x, y) => y - x)` of 1..4 is 4..1 |
| TestCases.AscendingThenDescending | tests/Seq.ts:471-473 | sorting on `a` ascending, then `b` descending, puts `true` first among equal `a` |
| TestCases.BooleanFirst | tests/Seq.ts:474-476 | sorting on `b` ascending, then `a`, puts `false` first |
| TestCases.CompareOnValue | tests/Seq.ts:200-202 | comparing on the value itself is the sign of the difference |
| TestCases.SortOnValue | tests/Seq.ts:200-202 | `sortOn(x => x)` of [4,2,3,1] is [1,2,3,4] |
| TestCases.CompareOnRank | tests/Seq.ts:203-209 | comparing records on their numeric field is the sign of the difference of the fields |
| TestCases.SortOnField | tests/Seq.ts:203-209 | `sortOn` the numeric field orders the three records by it |
| TestCases.PrependCases | tests/Seq.ts:55-68 | `prepend(1)` to [2,3,4] gives 1..4, `append` and `appendAll` after it act as on 1..4, and `prependAll([1,2,3])` to [4,5] gives 1..5 |
| TestCases.AppendCases | tests/Seq.ts:262-284 | `append(4)` and `appendAll([4,5])` on [1,2,3] give 1..4 and 1..5 |
| TestCases.ContainsCases | tests/Seq.ts:80-87 | 2 is in [1,2,3]; 4 is in neither [1,2,3] nor the empty sequence |
| TestCases.FoldSum | tests/Seq.ts:127-128 | folding `+` over [1,2,3] from 0 gives 6 |
| TestCases.ReverseCases | tests/Seq.ts:220-225 | reversing [1,2,3], the empty sequence, and [2,3] after `prepend(1)` |
| TestCases.ZipThenTakeWhile | tests/Seq.ts:250-252 | zipping [1,2,3] with ["a","b","c"] and keeping pairs while the number is below 3 gives two pairs |
| TestCases.FlatMapCase | tests/Seq.ts:253-256 | `flatMap` to `x` copies of `x` on 1..4 gives [1,2,2,3,3,3,4,4,4,4] |
| TestCases.MapCase | tests/Seq.ts:257-258 | `map(x => x + 4)` of [1,2,3] is [5,6,7] |
| TestCases.MapOptionCase | tests/Seq.ts:259-261 | `mapOption` keeping the successors of the even elements of 1..6 gives [3,5,7] |
| TestCases.FilterCases | tests/Seq.ts:321-326 | filtering the even elements of 1..4, also when built by two prepends, gives [2,4] |
| TestCases.DistinctByEdges | tests/Seq.ts:343-350 | `distinctBy` of the empty sequence, of [1], and of [2,3,2,3,1] after `prepend(1)` (the `x % 3` case in this range is `DistinctByModulo`) |
| TestCases.DistinctByModulo | tests/Seq.ts:347-348 | `distinctBy` on the key `x % 3` of [1,0,1,2,3,2,3,1] keeps [1,0,2] |
| TestCases.DropWhileAllOrNothing | tests/Seq.ts:355-358 | `dropWhile(x >= 0)` drops everything and `dropWhile(x < 0)` drops nothing; the two test titles say the opposite ("nothing matches" for the predicate every element meets), while their expected values agree with the predicates |
| TestCases.DropRightWhileAllOrNothing | tests/Seq.ts:363-366 | `dropRightWhile(x >= 0)` drops everything and `dropRightWhile(x < 0)` drops nothing; the titles are swapped in the same way |
| TestCases.SpanAllOrNothing | tests/Seq.ts:391-394 | `span(i < 9)` of 1..5 puts everything first and `span(i < 0)` puts everything second |

## Left out

- `toString` and `mkString` are not modelled. Their output depends on JavaScript's rules for turning values into strings.
- Conversion to `HashMap` and `HashSet` is not modelled. Those collections are not part of this model.
- `equals` is not modelled separately. Sequence equality is Dafny's `==`. At runtime `equals` returns false for an argument that is `null` or not a sequence (an `<any>` cast in tests/Seq.ts:74-77); such an argument cannot be represented by Dafny's typed `seq<T>`. The compile-time rejection of values without `equals`/`hashCode` is a TypeScript typing question.
- Selection.DistinctBy: keys are compared with Dafny's `==`, as is `DistinctFrom`. The test at tests/Seq.ts:347-348 uses keys that are objects compared by their own `equals`; such a key is modelled only by a value that stands for its equality class, such as `x % 3` there.
- `contains` is modelled with Dafny equality. Its runtime error for values without structural equality is not modelled.
- Lazy and infinite `Stream` arguments (such as `zip` with `Stream.iterate`) are not modelled. All inputs are finite sequences.
- The list, vector and stream representations are not modelled. Each of them behaves as the one `seq` model.
- The narrowing of `filter` and `partition` by type guards is not modelled. It only affects static types.
- `forEach` and the iterator are test plumbing and are not modelled. `fold` is `foldLeft` and has no member of its own.
- `length` is `|s|`. `of`, `ofIterable` and `empty` build the sequence itself, so they have no member of their own.
- Combination.Sliding: requires a window size of at least 1, because the tests only call `sliding(2)` and `sliding(3)` and nothing fixes what a size of 0 or less does. The window count (length divided by `k`, rounded up) is not stated; it follows from the stated window lengths.
- Sorting.SortOn: keys are integers, ascending or descending. Boolean keys are encoded as 0 and 1. String keys, with JavaScript's string order, are not modelled.
- Sorting.Shuffle: the random numbers are a parameter (`draws`). The claim that a shuffle changes the order is random and is not modelled.
- Sorting.SortBy: a comparator that is not total and transitive makes no promise beyond the permutation, and sortedness and stability are proved only for comparators that are.
- Build.UnfoldRight: requires a `nat` measure that the step decreases at every seed of the seed type, not only at the seeds reached from the given one. This is why the count-down of tests/Seq.ts:48-52 is modelled with a `nat` seed: over all integers its step never stops from a negative seed. A step function that never stops is not modelled.
