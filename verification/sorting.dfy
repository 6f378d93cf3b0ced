/**
 * Sorting by a total preorder, the model of itertools' `sorted()` used by day 1 (on
 * integers) and day 15 (on ranges, lexicographically). Insertion sort is enough: only
 * the result matters, and for a total order the sorted permutation is unique.
 */
module Sorting {

  /** `le` compares any two values and is transitive. */
  ghost predicate TotalPreorder<T(!new)>(le: (T, T) -> bool) {
    && (forall a, b :: le(a, b) || le(b, a))
    && (forall a, b, c :: le(a, b) && le(b, c) ==> le(a, c))
  }

  predicate SortedBy<T>(s: seq<T>, le: (T, T) -> bool) {
    forall i, j :: 0 <= i < j < |s| ==> le(s[i], s[j])
  }

  /** Inserts x into a sorted sequence before the first element it does not exceed. */
  function Insert<T(!new)>(x: T, s: seq<T>, le: (T, T) -> bool): (r: seq<T>)
    requires TotalPreorder(le) && SortedBy(s, le)
    ensures SortedBy(r, le)
    ensures multiset(r) == multiset(s) + multiset{x}
  {
    if |s| == 0 then [x]
    else if le(x, s[0]) then [x] + s
    else
      var rest := Insert(x, s[1..], le);
      assert s == [s[0]] + s[1..];
      ConsSorted(s[0], rest, s[1..] + [x], le);
      [s[0]] + rest
  }

  /** A sorted sequence stays sorted under a new head that is below all its elements. */
  lemma ConsSorted<T(!new)>(h: T, rest: seq<T>, bound: seq<T>, le: (T, T) -> bool)
    requires TotalPreorder(le) && SortedBy(rest, le)
    requires multiset(rest) == multiset(bound)
    requires forall k :: 0 <= k < |bound| ==> le(h, bound[k])
    ensures SortedBy([h] + rest, le)
  {
    forall k | 0 <= k < |rest|
      ensures le(h, rest[k])
    {
      assert rest[k] in multiset(bound);
      var j :| 0 <= j < |bound| && bound[j] == rest[k];
    }
  }

  /** A sorted permutation of s. */
  function Sort<T(!new)>(s: seq<T>, le: (T, T) -> bool): (r: seq<T>)
    requires TotalPreorder(le)
    ensures SortedBy(r, le)
    ensures multiset(r) == multiset(s)
  {
    if |s| == 0 then []
    else
      assert s == [s[0]] + s[1..];
      Insert(s[0], Sort(s[1..], le), le)
  }
}
