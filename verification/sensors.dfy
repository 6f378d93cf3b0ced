/**
 * Sensor coverage (day 15). Each sensor covers the closed Manhattan-distance diamond
 * reaching its nearest beacon. A row of a diamond is an interval of x values, and the
 * intervals of several sensors are merged into a sorted list of disjoint intervals.
 */
module Sensors {

  import opened Common
  import opened Sorting

  type Point = (int, int)

  /** A closed interval [start, end]; it is empty when start > end. */
  type Range = (int, int)

  datatype Constraint = Constraint(sensor: Point, nearestBeacon: Point)

  function Manhattan(p: Point, q: Point): nat {
    Abs(p.0 - q.0) + Abs(p.1 - q.1)
  }

  /** The distance from the sensor to its nearest beacon. */
  function Radius(c: Constraint): (r: nat)
    ensures r == Manhattan(c.sensor, c.nearestBeacon)
    ensures r == Manhattan(c.nearestBeacon, c.sensor)
  {
    Abs(c.sensor.0 - c.nearestBeacon.0) + Abs(c.sensor.1 - c.nearestBeacon.1)
  }

  /** The point (x, y) lies in the sensor's diamond. */
  predicate InDiamond(c: Constraint, x: int, y: int) {
    Manhattan((x, y), c.sensor) <= Radius(c)
  }

  /** The x values of row y inside the diamond, or None when the row misses it. */
  function CoveredXForFixedY(c: Constraint, y: int): (r: Option<Range>)
    ensures r.None? <==> Abs(y - c.sensor.1) > Radius(c)
    ensures r.Some? ==> r.value.0 <= r.value.1
    ensures r.Some? ==> forall x :: InDiamond(c, x, y) <==> r.value.0 <= x <= r.value.1
    ensures r.None? ==> forall x :: !InDiamond(c, x, y)
  {
    var rhs := Radius(c) - Abs(y - c.sensor.1);
    if rhs < 0 then None else Some((c.sensor.0 - rhs, c.sensor.0 + rhs))
  }

  function TopLeft(c: Constraint): int {
    c.sensor.0 + c.sensor.1 - Radius(c)
  }

  function BottomRight(c: Constraint): int {
    c.sensor.0 + c.sensor.1 + Radius(c)
  }

  function TopRight(c: Constraint): int {
    c.sensor.1 - c.sensor.0 - Radius(c)
  }

  function BottomLeft(c: Constraint): int {
    c.sensor.1 - c.sensor.0 + Radius(c)
  }

  /**
   * The four edges of the diamond in rotated coordinates: over the diamond, x + y ranges
   * exactly over [TopLeft, BottomRight] and y - x over [TopRight, BottomLeft], and the
   * diamond is the intersection of the two strips.
   */
  lemma DiamondEdges(c: Constraint)
    ensures forall x, y :: InDiamond(c, x, y) ==> TopLeft(c) <= x + y <= BottomRight(c)
    ensures forall x, y :: InDiamond(c, x, y) ==> TopRight(c) <= y - x <= BottomLeft(c)
    ensures forall x, y :: InDiamond(c, x, y) <==>
              TopLeft(c) <= x + y <= BottomRight(c) && TopRight(c) <= y - x <= BottomLeft(c)
    ensures InDiamond(c, c.sensor.0 - Radius(c), c.sensor.1) && InDiamond(c, c.sensor.0 + Radius(c), c.sensor.1)
    ensures TopLeft(c) == (c.sensor.0 - Radius(c)) + c.sensor.1
    ensures BottomRight(c) == (c.sensor.0 + Radius(c)) + c.sensor.1
    ensures TopRight(c) == c.sensor.1 - (c.sensor.0 + Radius(c))
    ensures BottomLeft(c) == c.sensor.1 - (c.sensor.0 - Radius(c))
  {
  }

  predicate Covers(r: Range, v: int) {
    r.0 <= v <= r.1
  }

  /** Some range of `ranges` contains v. */
  predicate ValueContainedInRanges(v: int, ranges: seq<Range>) {
    exists r :: r in ranges && Covers(r, v)
  }

  /** Lexicographic order on pairs, the order of Rust tuples. */
  function LexLe(a: Range, b: Range): bool {
    a.0 < b.0 || (a.0 == b.0 && a.1 <= b.1)
  }

  lemma LexLeIsTotalPreorder()
    ensures TotalPreorder(LexLe)
  {
  }

  /** Consecutive ranges are separated: each ends strictly before the next starts. */
  predicate Separated(rs: seq<Range>) {
    forall i :: 0 <= i < |rs| - 1 ==> rs[i].1 < rs[i + 1].0
  }

  predicate AllNonEmpty(rs: seq<Range>) {
    forall i :: 0 <= i < |rs| ==> rs[i].0 <= rs[i].1
  }

  /** Containment depends only on which ranges are present, not on their order. */
  lemma ContainedIsOrderFree(v: int, a: seq<Range>, b: seq<Range>)
    requires multiset(a) == multiset(b)
    ensures ValueContainedInRanges(v, a) <==> ValueContainedInRanges(v, b)
  {
    forall r | r in a ensures r in b {
      assert r in multiset(a);
    }
    forall r | r in b ensures r in a {
      assert r in multiset(b);
    }
  }

  /** Widening the last range by an overlapping one covers exactly the old ranges and the new one. */
  lemma MergeKeepsCoverage(out: seq<Range>, next: Range)
    requires |out| > 0 && out[|out| - 1].0 <= next.0 <= out[|out| - 1].1
    ensures var (left, right) := out[|out| - 1];
      var merged := out[..|out| - 1] + [(left, if right < next.1 then next.1 else right)];
      forall v :: ValueContainedInRanges(v, merged) <==> ValueContainedInRanges(v, out + [next])
  {
    var (left, right) := out[|out| - 1];
    var merged := out[..|out| - 1] + [(left, if right < next.1 then next.1 else right)];
    forall v
      ensures ValueContainedInRanges(v, merged) <==> ValueContainedInRanges(v, out + [next])
    {
      if ValueContainedInRanges(v, merged) {
        var r :| r in merged && Covers(r, v);
        if r in out[..|out| - 1] {
          assert r in out + [next];
        } else if v <= right {
          assert Covers(out[|out| - 1], v) && out[|out| - 1] in out + [next];
        } else {
          assert Covers(next, v) && next in out + [next];
        }
      }
      if ValueContainedInRanges(v, out + [next]) {
        var r :| r in out + [next] && Covers(r, v);
        if r in out[..|out| - 1] {
          assert r in merged;
        } else {
          assert merged[|merged| - 1] in merged;
          assert r == out[|out| - 1] || r == next;
        }
      }
    }
  }

  /** Appending a range adds exactly its values. */
  lemma AppendCoverage(out: seq<Range>, next: Range)
    ensures forall v :: ValueContainedInRanges(v, out + [next]) <==>
              ValueContainedInRanges(v, out) || Covers(next, v)
  {
    forall v
      ensures ValueContainedInRanges(v, out + [next]) <==> ValueContainedInRanges(v, out) || Covers(next, v)
    {
      if ValueContainedInRanges(v, out + [next]) {
        var r :| r in out + [next] && Covers(r, v);
        assert r in out || r == next;
      }
      if ValueContainedInRanges(v, out) {
        var r :| r in out && Covers(r, v);
        assert r in out + [next];
      }
      if Covers(next, v) {
        assert next in out + [next];
      }
    }
  }

  /**
   * One step of the merge: a range starting no later than the end of the last output
   * range extends that range, any other range is appended.
   */
  function Absorb(output: seq<Range>, next: Range): (r: seq<Range>)
    requires |output| > 0 ==> output[|output| - 1].0 <= next.0
    requires Separated(output)
    ensures forall v :: ValueContainedInRanges(v, r) <==> ValueContainedInRanges(v, output + [next])
    ensures Separated(r)
    ensures 0 < |r| <= |output| + 1
    ensures r[|r| - 1].0 <= next.0
    ensures AllNonEmpty(output) && next.0 <= next.1 ==> AllNonEmpty(r)
  {
    AppendCoverage(output, next);
    if |output| > 0 && output[|output| - 1].1 >= next.0 then
      var (left, right) := output[|output| - 1];
      MergeKeepsCoverage(output, next);
      output[..|output| - 1] + [(left, if right < next.1 then next.1 else right)]
    else
      output + [next]
  }

  /** The state of the merge once the first i sorted ranges are absorbed. */
  ghost predicate MergedPrefix(inputRanges: seq<Range>, sorted: seq<Range>, output: seq<Range>, i: nat)
    requires i <= |sorted|
  {
    && (forall v :: ValueContainedInRanges(v, output) <==> ValueContainedInRanges(v, sorted[..i]))
    && Separated(output)
    && |output| <= i
    && (i > 0 ==> |output| > 0 && output[|output| - 1].0 <= sorted[i - 1].0)
    && (AllNonEmpty(inputRanges) ==> AllNonEmpty(output))
  }

  /** Absorbing the next sorted range keeps the merge state. */
  lemma MergeStep(inputRanges: seq<Range>, sorted: seq<Range>, output: seq<Range>, i: nat)
    requires i < |sorted| && SortedBy(sorted, LexLe) && multiset(sorted) == multiset(inputRanges)
    requires MergedPrefix(inputRanges, sorted, output, i)
    ensures Separated(output) && (|output| > 0 ==> output[|output| - 1].0 <= sorted[i].0)
    ensures MergedPrefix(inputRanges, sorted, Absorb(output, sorted[i]), i + 1)
  {
    if i > 0 {
      assert LexLe(sorted[i - 1], sorted[i]);
    }
    if AllNonEmpty(inputRanges) {
      assert sorted[i] in multiset(inputRanges);
    }
    assert sorted[..i + 1] == sorted[..i] + [sorted[i]];
    AppendCoverage(sorted[..i], sorted[i]);
    AppendCoverage(output, sorted[i]);
  }

  /**
   * Merges ranges in lexicographic order with `Absorb`. The result covers exactly the
   * values the input covers, is separated and is no longer than the input; when no
   * input range is empty, neither is any output range.
   */
  method UnionOfRanges(inputRanges: seq<Range>) returns (output: seq<Range>)
    ensures forall v :: ValueContainedInRanges(v, output) <==> ValueContainedInRanges(v, inputRanges)
    ensures Separated(output)
    ensures |output| <= |inputRanges|
    ensures AllNonEmpty(inputRanges) ==> AllNonEmpty(output)
  {
    LexLeIsTotalPreorder();
    var sorted := Sort(inputRanges, LexLe);
    assert |sorted| == |multiset(sorted)| == |inputRanges|;
    output := [];
    for i := 0 to |sorted|
      invariant MergedPrefix(inputRanges, sorted, output, i)
    {
      MergeStep(inputRanges, sorted, output, i);
      output := Absorb(output, sorted[i]);
    }
    assert sorted[..|sorted|] == sorted;
    forall v
      ensures ValueContainedInRanges(v, sorted) <==> ValueContainedInRanges(v, inputRanges)
    {
      ContainedIsOrderFree(v, sorted, inputRanges);
    }
  }
}
