/**
 * Selection: `filter`, `partition`, `find`, `contains`, `removeFirst` and
 * `distinctBy`. Each keeps the surviving elements in their original order.
 */
module Selection {
  import opened Wrappers

  /** `b` contains the elements of `a`, in the same order, possibly with others in between. */
  ghost predicate IsSubsequence<T>(a: seq<T>, b: seq<T>)
    decreases |b|
  {
    a == [] || (b != [] && ((a[0] == b[0] && IsSubsequence(a[1..], b[1..])) || IsSubsequence(a, b[1..])))
  }

  /** The negation of a predicate. */
  function Not<T>(p: T -> bool): T -> bool {
    x => !p(x)
  }

  /** The elements satisfying `p`, in their original order. */
  function Filter<T>(s: seq<T>, p: T -> bool): (r: seq<T>)
    ensures |r| <= |s|
    ensures forall i :: 0 <= i < |r| ==> p(r[i])
  {
    if s == [] then [] else (if p(s[0]) then [s[0]] else []) + Filter(s[1..], p)
  }

  /** What `filter` keeps is a subsequence of its input. */
  lemma {:induction false} FilterIsSubsequence<T>(s: seq<T>, p: T -> bool)
    ensures IsSubsequence(Filter(s, p), s)
  {
    if s != [] {
      FilterIsSubsequence(s[1..], p);
      var rest := Filter(s[1..], p);
      if p(s[0]) {
        assert ([s[0]] + rest)[1..] == rest;
      } else {
        assert Filter(s, p) == rest;
      }
    }
  }

  /**
   * `filter` keeps every element satisfying `p` with its full multiplicity,
   * and nothing else.
   */
  lemma {:induction false} FilterCounts<T>(s: seq<T>, p: T -> bool)
    ensures multiset(Filter(s, p)) <= multiset(s)
    ensures forall i :: 0 <= i < |s| && p(s[i]) ==> multiset(Filter(s, p))[s[i]] == multiset(s)[s[i]]
  {
    if s != [] {
      FilterCounts(s[1..], p);
      assert s == [s[0]] + s[1..];
      var rest := Filter(s[1..], p);
      assert Filter(s, p) == (if p(s[0]) then [s[0]] else []) + rest;
      forall i | 0 <= i < |s| && p(s[i])
        ensures multiset(Filter(s, p))[s[i]] == multiset(s)[s[i]]
      {
        if 0 < i {
          assert s[i] == s[1..][i - 1];
        } else if s[0] in s[1..] {
          var j :| 0 <= j < |s[1..]| && s[1..][j] == s[0];
        }
      }
    }
  }

  /** Filtering distributes over concatenation. */
  lemma {:induction false} FilterConcat<T>(a: seq<T>, b: seq<T>, p: T -> bool)
    ensures Filter(a + b, p) == Filter(a, p) + Filter(b, p)
  {
    if a == [] {
      assert a + b == b;
    } else {
      assert (a + b)[1..] == a[1..] + b;
      FilterConcat(a[1..], b, p);
    }
  }

  /**
   * What `p` keeps and what its negation keeps make up the input exactly:
   * their sizes add up to its length and their multisets to its multiset.
   */
  lemma {:induction false} FilterComplement<T>(s: seq<T>, p: T -> bool)
    ensures |Filter(s, p)| + |Filter(s, Not(p))| == |s|
    ensures multiset(Filter(s, p)) + multiset(Filter(s, Not(p))) == multiset(s)
  {
    if s != [] {
      FilterComplement(s[1..], p);
      assert s == [s[0]] + s[1..];
      assert multiset(s) == multiset{s[0]} + multiset(s[1..]);
      assert Filter(s, p) == (if p(s[0]) then [s[0]] else []) + Filter(s[1..], p);
      assert Filter(s, Not(p)) == (if p(s[0]) then [] else [s[0]]) + Filter(s[1..], Not(p));
    }
  }

  /** In one pass: the elements satisfying `p` and those that do not, both in original order. */
  function Partition<T>(s: seq<T>, p: T -> bool): (r: (seq<T>, seq<T>))
    ensures r.0 == Filter(s, p) && r.1 == Filter(s, Not(p))
    ensures |r.0| + |r.1| == |s|
    ensures multiset(r.0) + multiset(r.1) == multiset(s)
  {
    if s == [] then ([], [])
    else
      var rest := Partition(s[1..], p);
      FilterComplement(s, p);
      if p(s[0]) then ([s[0]] + rest.0, rest.1) else (rest.0, [s[0]] + rest.1)
  }

  /** The index of the first element satisfying `p`, if any. */
  function IndexWhere<T>(s: seq<T>, p: T -> bool): (r: Option<nat>)
    ensures r.None? ==> forall i :: 0 <= i < |s| ==> !p(s[i])
    ensures r.Some? ==> r.value < |s| && p(s[r.value]) && forall j :: 0 <= j < r.value ==> !p(s[j])
  {
    if s == [] then None
    else if p(s[0]) then Some(0)
    else match IndexWhere(s[1..], p)
      case None => None
      case Some(k) => Some(k + 1)
  }

  /** The first element satisfying `p`, or `None` when no element does. */
  function Find<T>(s: seq<T>, p: T -> bool): (r: Option<T>)
    ensures r.None? <==> IndexWhere(s, p).None?
    ensures r.Some? ==> r.value == s[IndexWhere(s, p).value]
  {
    if s == [] then None
    else if p(s[0]) then Some(s[0])
    else Find(s[1..], p)
  }

  /** Whether some element equals `x`. */
  function Contains<T(==)>(s: seq<T>, x: T): (r: bool)
    ensures r <==> x in s
  {
    if s == [] then false else s[0] == x || Contains(s[1..], x)
  }

  /**
   * The sequence without its first element satisfying `p`; everything else
   * stays, in order. The identity when no element matches.
   */
  function RemoveFirst<T>(s: seq<T>, p: T -> bool): (r: seq<T>)
    ensures IndexWhere(s, p).None? ==> r == s
    ensures IndexWhere(s, p).Some? ==> r == s[..IndexWhere(s, p).value] + s[IndexWhere(s, p).value + 1..]
  {
    if s == [] then []
    else if p(s[0]) then s[1..]
    else
      assert s == [s[0]] + s[1..];
      [s[0]] + RemoveFirst(s[1..], p)
  }

  /** The set of keys of the elements. */
  function KeysOf<T, K(==)>(s: seq<T>, f: T -> K): (ks: set<K>)
    ensures forall i :: 0 <= i < |s| ==> f(s[i]) in ks
  {
    if s == [] then {} else {f(s[0])} + KeysOf(s[1..], f)
  }

  /**
   * The walk behind `distinctBy`: keeps an element when its key has not been
   * seen, and adds the key to the seen set.
   */
  function DistinctFrom<T, K(==)>(s: seq<T>, f: T -> K, seen: set<K>): (r: seq<T>)
    ensures IsSubsequence(r, s)
    ensures forall i :: 0 <= i < |r| ==> f(r[i]) !in seen
    ensures forall i, j :: 0 <= i < j < |r| ==> f(r[i]) != f(r[j])
    ensures KeysOf(r, f) == KeysOf(s, f) - seen
  {
    if s == [] then []
    else if f(s[0]) in seen then DistinctFrom(s[1..], f, seen)
    else
      var rest := DistinctFrom(s[1..], f, seen + {f(s[0])});
      assert ([s[0]] + rest)[1..] == rest;
      [s[0]] + rest
  }

  /**
   * The first element of each key, in original order: a subsequence of the
   * input, with pairwise distinct keys, and with every key of the input.
   */
  function DistinctBy<T, K(==)>(s: seq<T>, f: T -> K): (r: seq<T>)
    ensures IsSubsequence(r, s)
    ensures forall i, j :: 0 <= i < j < |r| ==> f(r[i]) != f(r[j])
    ensures KeysOf(r, f) == KeysOf(s, f)
  {
    DistinctFrom(s, f, {})
  }

  /**
   * Reference definition built from the back: an element is kept exactly
   * when no element before it has the same key.
   */
  function FirstOccurrences<T, K(==)>(s: seq<T>, f: T -> K): seq<T> {
    if s == [] then []
    else
      var init := s[..|s| - 1];
      FirstOccurrences(init, f) + (if f(s[|s| - 1]) in KeysOf(init, f) then [] else [s[|s| - 1]])
  }

  lemma {:induction false} KeysOfSnoc<T, K>(s: seq<T>, x: T, f: T -> K)
    ensures KeysOf(s + [x], f) == KeysOf(s, f) + {f(x)}
  {
    if s != [] {
      assert (s + [x])[1..] == s[1..] + [x];
      KeysOfSnoc(s[1..], x, f);
    }
  }

  /** Extending the input at the back extends the walk by the new element exactly when its key is new. */
  lemma {:induction false} DistinctFromSnoc<T, K>(s: seq<T>, x: T, f: T -> K, seen: set<K>)
    ensures DistinctFrom(s + [x], f, seen)
         == DistinctFrom(s, f, seen) + (if f(x) in seen + KeysOf(s, f) then [] else [x])
  {
    if s == [] {
      assert s + [x] == [x];
    } else {
      assert (s + [x])[1..] == s[1..] + [x];
      if f(s[0]) in seen {
        DistinctFromSnoc(s[1..], x, f, seen);
      } else {
        DistinctFromSnoc(s[1..], x, f, seen + {f(s[0])});
      }
    }
  }

  /** `distinctBy` keeps exactly the first occurrence of each key, in original order. */
  lemma {:induction false} DistinctByIsFirstOccurrences<T, K>(s: seq<T>, f: T -> K)
    ensures DistinctBy(s, f) == FirstOccurrences(s, f)
  {
    if s != [] {
      var init := s[..|s| - 1];
      assert s == init + [s[|s| - 1]];
      DistinctFromSnoc(init, s[|s| - 1], f, {});
      DistinctByIsFirstOccurrences(init, f);
    }
  }
}
