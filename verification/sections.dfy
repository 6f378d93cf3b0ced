/**
 * Camp cleanup section assignments (day 4): closed ranges of section numbers, whether one
 * contains the other, whether they overlap, and the `lo-hi` / `a,b` line format.
 */
module Sections {

  import opened Common
  import opened Parsing

  /** The sections lo..=hi; nothing forces lo <= hi. */
  datatype Range = Range(lo: nat, hi: nat)

  predicate Contains(r: Range, v: int) {
    r.lo <= v <= r.hi
  }

  predicate WellFormed(r: Range) {
    r.lo <= r.hi
  }

  /** `fully_contains`: every section of `other` is a section of `self`, bound by bound. */
  predicate FullyContains(self: Range, other: Range) {
    other.lo >= self.lo && other.hi <= self.hi
  }

  /** `overlaps`: the two ranges share at least one section. */
  predicate Overlaps(self: Range, other: Range) {
    self.lo <= other.hi && other.lo <= self.hi
  }

  /** For a non-empty `other`, containment of the bounds is containment of every section. */
  lemma FullyContainsMeansSubset(self: Range, other: Range)
    requires WellFormed(other)
    ensures FullyContains(self, other) <==> forall v :: Contains(other, v) ==> Contains(self, v)
  {
    if forall v :: Contains(other, v) ==> Contains(self, v) {
      assert Contains(other, other.lo) && Contains(other, other.hi);
    }
  }

  /** For non-empty ranges, overlapping is sharing a section. */
  lemma OverlapsMeansSharedSection(self: Range, other: Range)
    requires WellFormed(self) && WellFormed(other)
    ensures Overlaps(self, other) <==> exists v :: Contains(self, v) && Contains(other, v)
  {
    if Overlaps(self, other) {
      var v := if self.lo < other.lo then other.lo else self.lo;
      assert Contains(self, v) && Contains(other, v);
    }
  }

  /** Containment is a preorder; overlapping is symmetric; containment of a non-empty range is overlap. */
  lemma RangeRelations(a: Range, b: Range, c: Range)
    ensures FullyContains(a, a)
    ensures FullyContains(a, b) && FullyContains(b, c) ==> FullyContains(a, c)
    ensures Overlaps(a, b) <==> Overlaps(b, a)
    ensures WellFormed(b) && FullyContains(a, b) ==> Overlaps(a, b)
  {
  }

  /** `lo-hi`, both parts natural numbers; any other shape is an error. */
  function ParseRange(s: string): (r: Option<Range>)
    ensures r.Some? <==> |Split(s, '-')| == 2 && ParseNat(Split(s, '-')[0]).Some? && ParseNat(Split(s, '-')[1]).Some?
    ensures r.Some? ==> r.value == Range(ParseNat(Split(s, '-')[0]).value, ParseNat(Split(s, '-')[1]).value)
  {
    var parts := Split(s, '-');
    if |parts| != 2 then None
    else match (ParseNat(parts[0]), ParseNat(parts[1]))
      case (Some(lo), Some(hi)) => Some(Range(lo, hi))
      case _ => None
  }

  /** Printing a range as `lo-hi` and parsing it back gives the range. */
  lemma ParseRangeRoundTrip(r: Range)
    ensures ParseRange(ShowNat(r.lo) + "-" + ShowNat(r.hi)) == Some(r)
  {
    var lo, hi := ShowNat(r.lo), ShowNat(r.hi);
    SplitJoin([lo, hi], '-');
    assert Join([lo, hi], '-') == lo + "-" + hi by {
      assert [lo, hi][1..] == [hi];
    }
    ParseShowRoundTrip(r.lo);
    ParseShowRoundTrip(r.hi);
  }

  /** A range as the input writes it, `lo-hi`. */
  function ShowRange(r: Range): (s: string)
    ensures ',' !in s
    ensures ParseRange(s) == Some(r)
  {
    ParseRangeRoundTrip(r);
    ShowNat(r.lo) + "-" + ShowNat(r.hi)
  }

  /** A line holds two ranges separated by a comma. */
  function ParseLine(line: string): (r: Option<(Range, Range)>)
    ensures r.Some? <==> |Split(line, ',')| == 2 && ParseRange(Split(line, ',')[0]).Some?
                         && ParseRange(Split(line, ',')[1]).Some?
    ensures r.Some? ==> r.value == (ParseRange(Split(line, ',')[0]).value, ParseRange(Split(line, ',')[1]).value)
  {
    var parts := Split(line, ',');
    if |parts| != 2 then None
    else match (ParseRange(parts[0]), ParseRange(parts[1]))
      case (Some(a), Some(b)) => Some((a, b))
      case _ => None
  }

  /**
   * An accepted line is two comma-free texts joined by one comma: a line with no comma
   * or with more than one is rejected.
   */
  lemma ParseLineHasOneComma(line: string)
    requires ParseLine(line).Some?
    ensures exists p, q :: ',' !in p && ',' !in q && line == p + "," + q
  {
    var parts := Split(line, ',');
    JoinSplit(line, ',');
    assert parts[1..] == [parts[1]];
    assert line == parts[0] + "," + parts[1];
  }

  /** Two comma-free texts joined by a comma parse exactly when both parse as ranges. */
  lemma ParseLineOfParts(p: string, q: string)
    requires ',' !in p && ',' !in q
    ensures ParseLine(p + "," + q) ==
              if ParseRange(p).Some? && ParseRange(q).Some? then Some((ParseRange(p).value, ParseRange(q).value))
              else None
  {
    SplitJoin([p, q], ',');
    assert Join([p, q], ',') == p + "," + q by {
      assert [p, q][1..] == [q];
    }
  }

  /** Writing two ranges as the input does and parsing the line gives them back. */
  lemma ParseLineRoundTrip(a: Range, b: Range)
    ensures ParseLine(ShowRange(a) + "," + ShowRange(b)) == Some((a, b))
  {
    ParseLineOfParts(ShowRange(a), ShowRange(b));
  }
}
