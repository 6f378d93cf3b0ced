/**
 * SNAFU numbers (day 25): balanced base 5 with digits -2..2, written `=`, `-`, `0`, `1`, `2`.
 *
 * Decoding is a place-value sum with the last digit least significant. Encoding first
 * writes the number in ordinary base 5, least significant digit first, then turns every
 * digit 3, 4 or 5 into -2, -1 or 0 with a carry into the next place, and finally reverses.
 */
module Snafu {

  import opened Common

  predicate IsSnafuDigit(d: int) {
    -2 <= d <= 2
  }

  predicate AllSnafu(ds: seq<int>) {
    forall i :: 0 <= i < |ds| ==> IsSnafuDigit(ds[i])
  }

  predicate AllQuinary(ds: seq<int>) {
    forall i :: 0 <= i < |ds| ==> 0 <= ds[i] <= 4
  }

  /** A digit character; any other character is rejected (the source panics). */
  function ParseChar(c: char): (r: Option<int>)
    ensures r.Some? <==> c in "=-012"
    ensures r.Some? ==> IsSnafuDigit(r.value)
  {
    match c
    case '2' => Some(2)
    case '1' => Some(1)
    case '0' => Some(0)
    case '-' => Some(-1)
    case '=' => Some(-2)
    case _ => None
  }

  const DigitChars: string := "=-012"

  function DisplayDigit(d: int): char
    requires IsSnafuDigit(d)
  {
    DigitChars[d + 2]
  }

  /** Display and parse are inverse on digits and on digit characters. */
  lemma DigitRoundTrip(d: int, c: char)
    ensures IsSnafuDigit(d) ==> ParseChar(DisplayDigit(d)) == Some(d)
    ensures ParseChar(c).Some? ==> DisplayDigit(ParseChar(c).value) == c
  {
  }

  function ParseLine(s: string): (r: Option<seq<int>>)
    ensures r.Some? ==> |r.value| == |s| && forall i :: 0 <= i < |s| ==> ParseChar(s[i]) == Some(r.value[i])
    ensures r.None? <==> exists i :: 0 <= i < |s| && ParseChar(s[i]).None?
  {
    if |s| == 0 then Some([])
    else match (ParseChar(s[0]), ParseLine(s[1..]))
      case (Some(d), Some(rest)) => Some([d] + rest)
      case (None, _) => None
      case (_, None) => assert ParseChar(s[1..][0]).None? || exists i :: 1 <= i < |s| && ParseChar(s[i]).None?; None
  }

  function DisplaySnafu(ds: seq<int>): (s: string)
    requires AllSnafu(ds)
    ensures |s| == |ds| && forall i :: 0 <= i < |ds| ==> s[i] == DisplayDigit(ds[i])
  {
    if |ds| == 0 then "" else [DisplayDigit(ds[0])] + DisplaySnafu(ds[1..])
  }

  /** Every displayed SNAFU number parses back to its digits. */
  lemma {:induction false} DisplayParseRoundTrip(ds: seq<int>)
    requires AllSnafu(ds)
    ensures ParseLine(DisplaySnafu(ds)) == Some(ds)
    decreases |ds|
  {
    if |ds| > 0 {
      var s := DisplaySnafu(ds);
      assert s[1..] == DisplaySnafu(ds[1..]);
      DigitRoundTrip(ds[0], s[0]);
      DisplayParseRoundTrip(ds[1..]);
      assert [ds[0]] + ds[1..] == ds;
    }
  }

  function Pow5(k: nat): (p: nat)
    ensures p >= 1
  {
    if k == 0 then 1 else 5 * Pow5(k - 1)
  }

  /** The place-value sum of digits from place i on; the last digit has place 0. */
  function PlaceSum(ds: seq<int>, i: nat): int
    requires i <= |ds|
    decreases |ds| - i
  {
    if i == |ds| then 0 else Pow5(i) * ds[|ds| - 1 - i] + PlaceSum(ds, i + 1)
  }

  function SnafuToDecimal(ds: seq<int>): int {
    PlaceSum(ds, 0)
  }

  /** Evaluation most significant digit first. */
  function Horner(ds: seq<int>): int {
    if |ds| == 0 then 0 else 5 * Horner(ds[..|ds| - 1]) + ds[|ds| - 1]
  }

  /** The value of base-5 digits written least significant first. */
  function LsfValue(ds: seq<int>): int {
    if |ds| == 0 then 0 else ds[0] + 5 * LsfValue(ds[1..])
  }

  lemma {:induction false} PlaceSumShift(ds: seq<int>, i: nat)
    requires 0 < |ds| && i < |ds|
    ensures PlaceSum(ds, i + 1) == 5 * PlaceSum(ds[..|ds| - 1], i)
    decreases |ds| - i
  {
    var init := ds[..|ds| - 1];
    if i + 1 < |ds| {
      PlaceSumShift(ds, i + 1);
      assert ds[|ds| - 1 - (i + 1)] == init[|init| - 1 - i];
      calc {
        PlaceSum(ds, i + 1);
        Pow5(i + 1) * ds[|ds| - 1 - (i + 1)] + PlaceSum(ds, i + 2);
        5 * (Pow5(i) * init[|init| - 1 - i]) + 5 * PlaceSum(init, i + 1);
        5 * PlaceSum(init, i);
      }
    }
  }

  /** The place-value sum is Horner evaluation. */
  lemma {:induction false} SnafuIsHorner(ds: seq<int>)
    ensures SnafuToDecimal(ds) == Horner(ds)
    decreases |ds|
  {
    if |ds| > 0 {
      PlaceSumShift(ds, 0);
      SnafuIsHorner(ds[..|ds| - 1]);
    }
  }

  /** Reading digits backwards turns least-significant-first into place-value order. */
  lemma {:induction false} ReverseValue(ds: seq<int>)
    ensures SnafuToDecimal(Reverse(ds)) == LsfValue(ds)
    decreases |ds|
  {
    SnafuIsHorner(Reverse(ds));
    if |ds| > 0 {
      var r := Reverse(ds);
      assert r[..|r| - 1] == Reverse(ds[1..]);
      ReverseValue(ds[1..]);
      SnafuIsHorner(Reverse(ds[1..]));
    }
  }

  lemma {:induction false} LsfAppend(ds: seq<int>, d: int)
    ensures LsfValue(ds + [d]) == LsfValue(ds) + Pow5(|ds|) * d
    decreases |ds|
  {
    if |ds| > 0 {
      assert (ds + [d])[1..] == ds[1..] + [d];
      LsfAppend(ds[1..], d);
    }
  }

  /** Replacing a digit by itself minus 5 and carrying 1 into the next place keeps the value. */
  lemma {:induction false} CarryKeepsValue(ds: seq<int>, i: nat)
    requires i + 1 < |ds|
    ensures LsfValue(ds[i := ds[i] - 5][i + 1 := ds[i + 1] + 1]) == LsfValue(ds)
    decreases i
  {
    var ds' := ds[i := ds[i] - 5][i + 1 := ds[i + 1] + 1];
    if i == 0 {
      assert ds'[1..][1..] == ds[1..][1..];
    } else {
      assert ds'[1..] == ds[1..][i - 1 := ds[i] - 5][i := ds[i + 1] + 1];
      CarryKeepsValue(ds[1..], i - 1);
    }
  }

  /** The loop state of the base-5 conversion: the digits so far and what is left make `n`. */
  ghost predicate QuinaryProgress(n: int, digits: seq<int>, decimal: int) {
    && AllQuinary(digits)
    && (n <= 0 ==> digits == [] && decimal == n)
    && (n > 0 ==> decimal >= 0 && LsfValue(digits) + Pow5(|digits|) * decimal == n)
    && (n > 0 && decimal == 0 ==> |digits| > 0 && digits[|digits| - 1] != 0)
  }

  /** Splitting off the lowest base-5 digit of what is left keeps the loop state. */
  lemma QuinaryStep(n: int, digits: seq<int>, decimal: int)
    requires decimal > 0 && QuinaryProgress(n, digits, decimal)
    ensures QuinaryProgress(n, digits + [decimal % 5], decimal / 5)
  {
    var d, q := decimal % 5, decimal / 5;
    var digits' := digits + [d];
    LsfAppend(digits, d);
    assert Pow5(|digits'|) == 5 * Pow5(|digits|);
    SplitLowDigit(Pow5(|digits|), decimal);
    assert LsfValue(digits') + Pow5(|digits'|) * q == LsfValue(digits) + Pow5(|digits|) * decimal;
  }

  lemma SplitLowDigit(p: int, decimal: int)
    requires decimal > 0
    ensures p * decimal == p * (decimal % 5) + (5 * p) * (decimal / 5)
  {
    assert decimal == 5 * (decimal / 5) + decimal % 5;
  }

  /**
   * Base-5 digits of a positive number, least significant first, with no trailing zero;
   * zero and negative numbers give no digits.
   */
  method DecimalToQuinary(n: int) returns (digits: seq<int>)
    ensures AllQuinary(digits)
    ensures n <= 0 ==> digits == []
    ensures n > 0 ==> LsfValue(digits) == n && |digits| > 0 && digits[|digits| - 1] != 0
  {
    digits := [];
    var decimal := n;
    while decimal > 0
      invariant QuinaryProgress(n, digits, decimal)
    {
      QuinaryStep(n, digits, decimal);
      digits := digits + [decimal % 5];
      decimal := decimal / 5;
    }
  }

  /**
   * One step of the carry pass at place `idx`: a digit above 2 at the top first gets a zero
   * place above it; then 3, 4 and 5 become -2, -1 and 0 with 1 carried into the next place.
   */
  function CarryAt(q: seq<int>, idx: nat): (r: seq<int>)
    requires idx < |q|
  {
    var q' := if idx == |q| - 1 && q[idx] > 2 then q + [0] else q;
    if q'[idx] == 3 then q'[idx := -2][idx + 1 := q'[idx + 1] + 1]
    else if q'[idx] == 4 then q'[idx := -1][idx + 1 := q'[idx + 1] + 1]
    else if q'[idx] == 5 then q'[idx := 0][idx + 1 := q'[idx + 1] + 1]
    else q'
  }

  /** The loop state of the carry pass over the base-5 digits `quinary` after `idx` places. */
  ghost predicate CarryProgress(quinary: seq<int>, q: seq<int>, idx: nat) {
    && idx <= |quinary|
    && (|q| == |quinary| || (|q| == |quinary| + 1 && idx == |quinary|))
    && (forall i :: idx < i < |quinary| ==> q[i] == quinary[i])
    && (AllQuinary(quinary) ==>
          && LsfValue(q) == LsfValue(quinary)
          && (forall i :: 0 <= i < idx ==> IsSnafuDigit(q[i]))
          && (idx < |quinary| ==> 0 <= q[idx] <= 5)
          && (|q| == |quinary| + 1 ==> 0 <= q[|quinary|] <= 1))
  }

  /** A carry step keeps the value, fixes the digit at `idx` and leaves the next one in 0..5. */
  lemma CarryStep(quinary: seq<int>, q: seq<int>, idx: nat)
    requires idx < |quinary| && CarryProgress(quinary, q, idx)
    ensures idx < |q| && CarryProgress(quinary, CarryAt(q, idx), idx + 1)
  {
    var q' := if idx == |q| - 1 && q[idx] > 2 then q + [0] else q;
    if idx == |q| - 1 && q[idx] > 2 {
      LsfAppend(q, 0);
    }
    assert LsfValue(q') == LsfValue(q);
    if 3 <= q'[idx] <= 5 {
      CarryKeepsValue(q', idx);
    }
  }

  /**
   * Base-5 digits (least significant first) to SNAFU digits (most significant first). On
   * base-5 input every result digit is in -2..2 and the value is unchanged; the result has
   * the input's length, or one more digit when a carry leaves the top place.
   */
  method QuinaryToSnafu(quinary: seq<int>) returns (snafu: seq<int>)
    ensures |snafu| == |quinary| || |snafu| == |quinary| + 1
    ensures AllQuinary(quinary) ==> AllSnafu(snafu) && SnafuToDecimal(snafu) == LsfValue(quinary)
  {
    var q := quinary;
    for idx := 0 to |quinary|
      invariant CarryProgress(quinary, q, idx)
    {
      CarryStep(quinary, q, idx);
      q := CarryAt(q, idx);
    }
    snafu := Reverse(q);
    ReverseValue(q);
  }

  /** Encoding a non-negative total as the source does gives SNAFU digits that decode to it. */
  method EncodeSnafu(n: int) returns (snafu: seq<int>)
    requires n >= 0
    ensures AllSnafu(snafu)
    ensures SnafuToDecimal(snafu) == n
  {
    var quinary := DecimalToQuinary(n);
    snafu := QuinaryToSnafu(quinary);
  }
}
