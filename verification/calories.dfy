/**
 * Calorie counting (day 1): the totals of the blank-line separated groups of numbers,
 * and the sum of the k largest totals.
 */
module Calories {

  import opened Common
  import opened Parsing
  import opened Sorting

  /** How many lines at the front are non-empty. */
  function RunLength(lines: seq<string>): (k: nat)
    ensures k <= |lines|
    ensures forall i :: 0 <= i < k ==> lines[i] != ""
    ensures k < |lines| ==> lines[k] == ""
  {
    if |lines| == 0 || lines[0] == "" then 0 else 1 + RunLength(lines[1..])
  }

  /** The maximal runs of non-empty lines, in order: `group_by` on emptiness, empty groups dropped. */
  function Groups(lines: seq<string>): (r: seq<seq<string>>)
    ensures forall g :: 0 <= g < |r| ==> |r[g]| > 0
    ensures forall g, i :: 0 <= g < |r| && 0 <= i < |r[g]| ==> r[g][i] != ""
    decreases |lines|
  {
    if |lines| == 0 then []
    else if lines[0] == "" then Groups(lines[1..])
    else
      var k := RunLength(lines);
      [lines[..k]] + Groups(lines[k..])
  }

  function Flatten(groups: seq<seq<string>>): seq<string> {
    if |groups| == 0 then [] else groups[0] + Flatten(groups[1..])
  }

  /** The non-empty lines, in order. */
  function NonEmptyLines(lines: seq<string>): seq<string> {
    if |lines| == 0 then []
    else (if lines[0] == "" then [] else [lines[0]]) + NonEmptyLines(lines[1..])
  }

  /** Lines starting a run: non-empty, first or after an empty line. */
  function RunStarts(lines: seq<string>, afterEmpty: bool): nat {
    if |lines| == 0 then 0
    else (if lines[0] != "" && afterEmpty then 1 else 0) + RunStarts(lines[1..], lines[0] == "")
  }

  lemma {:induction false} NonEmptyRun(lines: seq<string>, k: nat)
    requires k <= |lines| && forall i :: 0 <= i < k ==> lines[i] != ""
    ensures NonEmptyLines(lines) == lines[..k] + NonEmptyLines(lines[k..])
    ensures k > 0 ==> RunStarts(lines, false) == RunStarts(lines[k..], false)
    decreases k
  {
    if k > 0 {
      NonEmptyRun(lines[1..], k - 1);
      assert lines[1..][k - 1..] == lines[k..];
      assert lines[..k] == [lines[0]] + lines[1..][..k - 1];
    }
  }

  /**
   * The groups hold exactly the non-empty lines, in order, and there is one group per
   * run of non-empty lines.
   */
  lemma {:induction false} GroupsPartitionLines(lines: seq<string>)
    ensures Flatten(Groups(lines)) == NonEmptyLines(lines)
    ensures |Groups(lines)| == RunStarts(lines, true)
    decreases |lines|
  {
    if |lines| > 0 {
      if lines[0] == "" {
        GroupsPartitionLines(lines[1..]);
      } else {
        var k := RunLength(lines);
        GroupsPartitionLines(lines[k..]);
        NonEmptyRun(lines, k);
        var g := Groups(lines);
        assert g[1..] == Groups(lines[k..]);
        assert RunStarts(lines, true) == 1 + RunStarts(lines[1..], false);
        if k > 1 {
          NonEmptyRun(lines[1..], k - 1);
          assert lines[1..][k - 1..] == lines[k..];
        }
        if k < |lines| {
          assert RunStarts(lines[k..], false) == RunStarts(lines[k + 1..], true);
          assert RunStarts(lines[k..], true) == RunStarts(lines[k + 1..], true);
        }
      }
    }
  }

  /** Parses every line of a group as a natural number and adds them up; a bad line is an error. */
  function GroupTotal(group: seq<string>): (r: Option<nat>)
    ensures r.Some? <==> forall i :: 0 <= i < |group| ==> ParseNat(group[i]).Some?
    decreases |group|
  {
    if |group| == 0 then Some(0)
    else match (ParseNat(group[0]), GroupTotal(group[1..]))
      case (Some(v), Some(rest)) => Some(v + rest)
      case _ => None
  }

  /** The values of a group whose lines all parse. */
  function Values(group: seq<string>): (r: seq<nat>)
    requires forall i :: 0 <= i < |group| ==> ParseNat(group[i]).Some?
    ensures |r| == |group|
    ensures forall i :: 0 <= i < |group| ==> r[i] == ParseNat(group[i]).value
  {
    seq(|group|, i requires 0 <= i < |group| => ParseNat(group[i]).value)
  }

  lemma {:induction false} GroupTotalIsSum(group: seq<string>)
    requires forall i :: 0 <= i < |group| ==> ParseNat(group[i]).Some?
    ensures GroupTotal(group).Some? && GroupTotal(group).value == Sum(Values(group))
    decreases |group|
  {
    if |group| > 0 {
      GroupTotalIsSum(group[1..]);
      ValuesCons(group);
      SumCons(ParseNat(group[0]).value, Values(group[1..]));
    }
  }

  lemma ValuesCons(group: seq<string>)
    requires |group| > 0 && forall i :: 0 <= i < |group| ==> ParseNat(group[i]).Some?
    ensures Values(group) == [ParseNat(group[0]).value] + Values(group[1..])
  {
    var vs, rest := Values(group), Values(group[1..]);
    forall i | 1 <= i < |vs| ensures vs[i] == rest[i - 1] {
      assert group[1..][i - 1] == group[i];
    }
  }

  /** `totals_grouped_by_empty_lines`: one total per group, in order; a bad line is an error. */
  function TotalsGroupedByEmptyLines(lines: seq<string>): (r: Option<seq<nat>>)
    ensures r.Some? ==> |r.value| == |Groups(lines)|
    ensures r.Some? ==> forall g :: 0 <= g < |r.value| ==> GroupTotal(Groups(lines)[g]) == Some(r.value[g])
    ensures r.Some? ==> forall g :: 0 <= g < |Groups(lines)| ==> GroupTotal(Groups(lines)[g]).Some?
    ensures (forall g :: 0 <= g < |Groups(lines)| ==> GroupTotal(Groups(lines)[g]).Some?) ==> r.Some?
  {
    var groups := Groups(lines);
    var r := Totals(groups);
    assert r.Some? <==> forall g :: 0 <= g < |groups| ==> GroupTotal(groups[g]).Some?;
    r
  }

  function Totals(groups: seq<seq<string>>): (r: Option<seq<nat>>)
    ensures r.Some? ==> |r.value| == |groups|
    ensures r.Some? ==> forall g :: 0 <= g < |r.value| ==> GroupTotal(groups[g]) == Some(r.value[g])
    ensures r.Some? <==> forall g :: 0 <= g < |groups| ==> GroupTotal(groups[g]).Some?
  {
    if |groups| == 0 then Some([])
    else match (GroupTotal(groups[0]), Totals(groups[1..]))
      case (Some(t), Some(rest)) =>
        assert forall g :: 1 <= g < |groups| ==> groups[g] == groups[1..][g - 1];
        Some([t] + rest)
      case (None, _) => None
      case (_, None) =>
        var g :| 0 <= g < |groups[1..]| && GroupTotal(groups[1..][g]).None?;
        assert GroupTotal(groups[g + 1]).None?;
        None
  }

  function NatLe(a: nat, b: nat): bool {
    a <= b
  }

  lemma NatLeIsTotalPreorder()
    ensures TotalPreorder(NatLe)
  {
  }

  /** The values, largest first. */
  function Descending(values: seq<nat>): (r: seq<nat>)
    ensures multiset(r) == multiset(values)
    ensures forall i, j :: 0 <= i < j < |r| ==> r[i] >= r[j]
  {
    NatLeIsTotalPreorder();
    var sorted := Sort(values, NatLe);
    var r := Reverse(sorted);
    ReverseIsPermutation(sorted);
    r
  }

  lemma {:induction false} ReverseIsPermutation<T>(s: seq<T>)
    ensures multiset(Reverse(s)) == multiset(s)
    decreases |s|
  {
    if |s| > 0 {
      ReverseIsPermutation(s[1..]);
      assert s == [s[0]] + s[1..];
    }
  }

  function Take<T>(s: seq<T>, k: nat): (r: seq<T>)
    ensures |r| == if k < |s| then k else |s|
  {
    if k < |s| then s[..k] else s
  }

  /**
   * `sum_of_top_k_values`: the sum of the k largest values (all of them if there are
   * fewer). It is the sum of some choice of k of the values, and no choice of at most k
   * of them sums to more (TopKIsMaximum).
   */
  function SumOfTopKValues(values: seq<nat>, k: nat): (r: int)
    ensures IsChoiceSum(values, k, r)
  {
    var d := Descending(values);
    var t := Take(d, k);
    ChoiceOfPrefix(values, d, k);
    Sum(t)
  }

  /** r is the sum of some k of the values (all of them if there are fewer). */
  ghost predicate IsChoiceSum(values: seq<nat>, k: nat, r: int) {
    exists s: seq<nat> :: |s| == (if k < |values| then k else |values|) &&
      multiset(s) <= multiset(values) && Sum(s) == r
  }

  lemma ChoiceOfPrefix(values: seq<nat>, d: seq<nat>, k: nat)
    requires multiset(d) == multiset(values)
    ensures IsChoiceSum(values, k, Sum(Take(d, k)))
  {
    var t := Take(d, k);
    assert |d| == |values| by {
      assert |multiset(d)| == |multiset(values)|;
    }
    assert d == t + d[|t|..];
    assert multiset(t) <= multiset(values);
  }

  /** No choice of at most k of the values sums to more than the top-k sum. */
  lemma TopKIsMaximum(values: seq<nat>, k: nat, s: seq<nat>)
    requires multiset(s) <= multiset(values) && |s| <= k
    ensures Sum(s) <= SumOfTopKValues(values, k)
  {
    TakeIsMaxSum(Descending(values), s, k);
  }

  /** Each element is at least the next. */
  predicate IsDescending(d: seq<nat>) {
    forall i, j :: 0 <= i < j < |d| ==> d[i] >= d[j]
  }

  /**
   * In a descending sequence the first k elements have the largest sum of any at most k
   * elements drawn from it: the largest element is either chosen, or can replace a chosen one.
   */
  lemma {:induction false} TakeIsMaxSum(d: seq<nat>, s: seq<nat>, k: nat)
    requires IsDescending(d)
    requires multiset(s) <= multiset(d) && |s| <= k
    ensures Sum(s) <= Sum(Take(d, k))
    decreases |d|
  {
    if |s| == 0 {
      SumOfNats(Take(d, k));
    } else {
      var s' := TakeIsMaxSumStep(d, s, k);
      TakeIsMaxSum(d[1..], s', k - 1);
    }
  }

  /**
   * One step of the exchange argument: dropping from s the largest element of d, or any
   * element if s lacks it, leaves a choice s' out of the rest of d with one place fewer,
   * and the bound for s' gives the bound for s.
   */
  lemma TakeIsMaxSumStep(d: seq<nat>, s: seq<nat>, k: nat) returns (s': seq<nat>)
    requires IsDescending(d) && multiset(s) <= multiset(d) && |s| <= k && |s| > 0
    ensures |d| > 0 && k >= 1 && IsDescending(d[1..])
    ensures multiset(s') <= multiset(d[1..]) && |s'| <= k - 1
    ensures Sum(s') <= Sum(Take(d[1..], k - 1)) ==> Sum(s) <= Sum(Take(d, k))
  {
    assert |d| > 0 by {
      assert s[0] in multiset(d);
    }
    var j := ChooseIndex(s, d);
    s' := s[..j] + s[j + 1..];
    RemoveChosen(s, d, j);
    DescendingMax(d, s[j]);
    DescendingTail(d);
    SumDropOne(s, j);
    TakeCons(d, k);
  }

  /** The position of the largest element of d in s if it occurs there, and 0 otherwise. */
  function ChooseIndex(s: seq<nat>, d: seq<nat>): (j: nat)
    requires |s| > 0 && |d| > 0
    ensures j < |s| && (d[0] in s ==> s[j] == d[0])
  {
    if d[0] in s then IndexOf(s, d[0]) else 0
  }

  /** Dropping the chosen element from a choice out of d leaves a choice out of the rest of d. */
  lemma RemoveChosen(s: seq<nat>, d: seq<nat>, j: nat)
    requires multiset(s) <= multiset(d)
    requires |d| > 0 && j < |s| && (d[0] in s ==> s[j] == d[0])
    ensures multiset(s[..j] + s[j + 1..]) <= multiset(d[1..])
  {
    var x := d[0];
    assert multiset(d) == multiset{x} + multiset(d[1..]) by {
      assert d == [x] + d[1..];
    }
    RemoveAt(s, j);
    if x !in s {
      assert multiset(s)[x] == 0;
    }
  }

  /** The first element of a descending sequence is its largest. */
  lemma DescendingMax(d: seq<nat>, y: nat)
    requires IsDescending(d) && y in multiset(d)
    ensures |d| > 0 && y <= d[0]
  {
    var i :| 0 <= i < |d| && d[i] == y;
  }

  lemma DescendingTail(d: seq<nat>)
    requires IsDescending(d) && |d| > 0
    ensures IsDescending(d[1..])
  {
  }

  /** Dropping the element at j takes it out of the sum. */
  lemma SumDropOne(s: seq<int>, j: nat)
    requires j < |s|
    ensures Sum(s) == Sum(s[..j] + s[j + 1..]) + s[j]
  {
    assert s == s[..j] + [s[j]] + s[j + 1..];
    RemoveAtSum(s[..j], s[j], s[j + 1..]);
  }

  /** The index of an element that occurs in a sequence. */
  function IndexOf(s: seq<nat>, x: nat): (j: nat)
    requires x in s
    ensures j < |s| && s[j] == x
  {
    if s[0] == x then 0 else 1 + IndexOf(s[1..], x)
  }

  /** Taking k >= 1 elements of a non-empty sequence takes its first and k - 1 of the rest. */
  lemma TakeCons(d: seq<nat>, k: nat)
    requires k >= 1 && |d| > 0
    ensures Sum(Take(d, k)) == d[0] + Sum(Take(d[1..], k - 1))
  {
    if k < |d| {
      assert d[..k] == [d[0]] + d[1..][..k - 1];
    } else {
      assert d == [d[0]] + d[1..];
    }
    assert Take(d, k) == [d[0]] + Take(d[1..], k - 1);
    SumCons(d[0], Take(d[1..], k - 1));
  }

  lemma {:induction false} SumOfNats(s: seq<nat>)
    ensures Sum(s) >= 0
    decreases |s|
  {
    if |s| > 0 {
      SumOfNats(s[..|s| - 1]);
    }
  }

  /** Sums do not depend on the order of the terms. */
  lemma {:induction false} SumOfPermutation(a: seq<int>, b: seq<int>)
    requires multiset(a) == multiset(b)
    ensures Sum(a) == Sum(b)
    decreases |a|
  {
    if |a| == 0 {
      assert |b| == |multiset(b)| == 0;
    } else {
      var n := |a|;
      var x := a[n - 1];
      assert a == a[..n - 1] + [x];
      assert multiset(a[..n - 1]) == multiset(a) - multiset{x};
      assert x in multiset(b);
      var j :| 0 <= j < |b| && b[j] == x;
      RemoveAt(b, j);
      assert b == b[..j] + [x] + b[j + 1..];
      RemoveAtSum(b[..j], x, b[j + 1..]);
      SumOfPermutation(a[..n - 1], b[..j] + b[j + 1..]);
    }
  }

  /** Removing the element at j takes it out of the multiset. */
  lemma RemoveAt(b: seq<int>, j: nat)
    requires j < |b|
    ensures multiset(b[..j] + b[j + 1..]) == multiset(b) - multiset{b[j]}
  {
    assert b == b[..j] + [b[j]] + b[j + 1..];
  }

  /** Removing an element from the middle takes it out of the sum. */
  lemma RemoveAtSum(front: seq<int>, x: int, back: seq<int>)
    ensures Sum(front + [x] + back) == Sum(front + back) + x
  {
    SumAppend(front + [x], back);
    SumAppend(front, [x]);
    SumAppend(front, back);
    assert [x][..0] == [];
  }

  /** Taking at least as many values as there are sums all of them. */
  lemma TopKOfAll(values: seq<nat>, k: nat)
    requires k >= |values|
    ensures SumOfTopKValues(values, k) == Sum(values)
  {
    SumOfPermutation(Descending(values), values);
  }

  /** The top-k sum lies between 0 and the total. */
  lemma TopKBounded(values: seq<nat>, k: nat)
    ensures 0 <= SumOfTopKValues(values, k) <= Sum(values)
  {
    var d := Descending(values);
    SumOfPermutation(d, values);
    SumOfNats(Take(d, k));
    TakeAtMostWhole(d, k);
  }

  /** A prefix of naturals sums to at most the whole. */
  lemma TakeAtMostWhole(d: seq<nat>, k: nat)
    ensures Sum(Take(d, k)) <= Sum(d)
  {
    if k < |d| {
      assert d == d[..k] + d[k..];
      SumAppend(d[..k], d[k..]);
      SumOfNats(d[k..]);
    }
  }

  /** Taking one more value never lowers the sum. */
  lemma TopKMonotone(values: seq<nat>, k: nat)
    ensures SumOfTopKValues(values, k) <= SumOfTopKValues(values, k + 1)
  {
    var d := Descending(values);
    if k < |d| {
      TakeOneMore(d, k);
    }
  }

  /** Taking one more element adds that element to the sum. */
  lemma TakeOneMore(d: seq<nat>, k: nat)
    requires k < |d|
    ensures Sum(Take(d, k + 1)) == Sum(Take(d, k)) + d[k]
  {
    var t := d[..k + 1];
    assert t[..k] == d[..k];
    assert Take(d, k + 1) == t;
  }

  /** With k = 1 the top-k sum is the largest value. */
  lemma TopOneIsMaximum(values: seq<nat>)
    requires |values| > 0
    ensures SumOfTopKValues(values, 1) in values
    ensures forall i :: 0 <= i < |values| ==> values[i] <= SumOfTopKValues(values, 1)
  {
    var d := Descending(values);
    assert Take(d, 1) == [d[0]];
    SumSingleton(d[0]);
    assert d[0] in multiset(values);
    forall i | 0 <= i < |values|
      ensures values[i] <= SumOfTopKValues(values, 1)
    {
      SumSingleton(values[i]);
      assert multiset([values[i]]) <= multiset(values);
      TopKIsMaximum(values, 1, [values[i]]);
    }
  }

  lemma SumSingleton(x: int)
    ensures Sum([x]) == x
  {
    assert [x][..0] == [];
  }
}
