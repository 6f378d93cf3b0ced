/**
 * The string handling the puzzle parsers share: `str::split` on a single character and
 * `str::parse` into unsigned and signed integers (machine widths are not modelled, so
 * the overflow error is absent).
 */
module Parsing {

  import opened Common

  predicate IsDigit(c: char) {
    '0' <= c <= '9'
  }

  predicate AllDigits(s: string) {
    forall i :: 0 <= i < |s| ==> IsDigit(s[i])
  }

  function DigitValue(c: char): nat
    requires IsDigit(c)
  {
    c as int - '0' as int
  }

  function DigitChar(d: nat): (c: char)
    requires d < 10
    ensures IsDigit(c) && DigitValue(c) == d
  {
    ('0' as int + d) as char
  }

  /** The decimal value of a string of digits, most significant first. */
  function DigitsValue(s: string): nat
    requires AllDigits(s)
  {
    if |s| == 0 then 0 else 10 * DigitsValue(s[..|s| - 1]) + DigitValue(s[|s| - 1])
  }

  /** The decimal digits of n, with no leading zero. */
  function ShowNat(n: nat): (s: string)
    ensures |s| > 0 && AllDigits(s)
    ensures DigitsValue(s) == n
    ensures |s| > 1 ==> s[0] != '0'
  {
    if n < 10 then [DigitChar(n)]
    else
      var prefix := ShowNat(n / 10);
      var s := prefix + [DigitChar(n % 10)];
      assert s[..|s| - 1] == prefix;
      s
  }

  /** The string without one leading occurrence of `sign`, if it starts with one. */
  function DropSign(s: string, sign: char): string {
    if |s| > 0 && s[0] == sign then s[1..] else s
  }

  /** `str::parse::<usize>`: an optional '+' followed by at least one digit. */
  function ParseNat(s: string): (r: Option<nat>)
    ensures r.Some? <==> |DropSign(s, '+')| > 0 && AllDigits(DropSign(s, '+'))
    ensures r.Some? ==> r.value == DigitsValue(DropSign(s, '+'))
  {
    var digits := DropSign(s, '+');
    if |digits| > 0 && AllDigits(digits) then Some(DigitsValue(digits)) else None
  }

  /** `str::parse::<isize>`: an optional '+' or '-' followed by at least one digit. */
  function ParseInt(s: string): (r: Option<int>)
    ensures |s| > 0 && s[0] == '-' ==> r == (if ParseNat(s[1..]).Some? && s[1] != '+' then Some(0 - ParseNat(s[1..]).value) else None)
    ensures !(|s| > 0 && s[0] == '-') ==> r == (match ParseNat(s) case Some(n) => Some(n as int) case None => None)
  {
    if |s| > 0 && s[0] == '-' then
      var digits := s[1..];
      if |digits| > 0 && AllDigits(digits) then Some(0 - DigitsValue(digits)) else None
    else
      match ParseNat(s)
      case Some(n) => Some(n as int)
      case None => None
  }

  /** Parsing the decimal form of a number gives the number back, with either sign. */
  lemma ParseShowRoundTrip(n: nat)
    ensures ParseNat(ShowNat(n)) == Some(n)
    ensures ParseInt(ShowNat(n)) == Some(n)
    ensures ParseInt("-" + ShowNat(n)) == Some(0 - n)
  {
    var s := ShowNat(n);
    assert DropSign(s, '+') == s;
    assert ("-" + s)[1..] == s;
  }

  /** `str::split(sep)`: the maximal pieces between separators, empty pieces included. */
  function Split(s: string, sep: char): (parts: seq<string>)
    ensures |parts| >= 1
    ensures forall i :: 0 <= i < |parts| ==> sep !in parts[i]
    decreases |s|
  {
    if |s| == 0 then [""]
    else if s[0] == sep then [""] + Split(s[1..], sep)
    else
      var rest := Split(s[1..], sep);
      [[s[0]] + rest[0]] + rest[1..]
  }

  /** The pieces put back together with the separator between consecutive ones. */
  function Join(parts: seq<string>, sep: char): string
    requires |parts| >= 1
  {
    if |parts| == 1 then parts[0] else parts[0] + [sep] + Join(parts[1..], sep)
  }

  /** Splitting then joining gives back the string. */
  lemma {:induction false} JoinSplit(s: string, sep: char)
    ensures Join(Split(s, sep), sep) == s
    decreases |s|
  {
    if |s| > 0 {
      JoinSplit(s[1..], sep);
      var rest := Split(s[1..], sep);
      if s[0] != sep {
        if |rest| == 1 {
          assert Split(s, sep) == [[s[0]] + rest[0]];
        } else {
          assert Split(s, sep)[1..] == rest[1..];
        }
      }
    }
  }

  /** Joining pieces free of the separator, then splitting, gives back the pieces. */
  lemma {:induction false} SplitJoin(parts: seq<string>, sep: char)
    requires |parts| >= 1
    requires forall i :: 0 <= i < |parts| ==> sep !in parts[i]
    ensures Split(Join(parts, sep), sep) == parts
    decreases |parts|, |parts[0]|, 1
  {
    if |parts[0]| > 0 {
      SplitJoinLetter(parts, sep);
    } else if |parts| > 1 {
      SplitJoinSeparator(parts, sep);
    }
  }

  /** The joined string starts with the first letter of the first piece. */
  lemma {:induction false} SplitJoinLetter(parts: seq<string>, sep: char)
    requires |parts| >= 1 && |parts[0]| > 0
    requires forall i :: 0 <= i < |parts| ==> sep !in parts[i]
    ensures Split(Join(parts, sep), sep) == parts
    decreases |parts|, |parts[0]|, 0
  {
    var first := parts[0];
    var shorter := [first[1..]] + parts[1..];
    assert forall i :: 1 <= i < |shorter| ==> shorter[i] == parts[i];
    SplitJoin(shorter, sep);
    assert Join(parts, sep)[1..] == Join(shorter, sep);
    assert Join(parts, sep)[0] == first[0];
    assert [first[0]] + first[1..] == first;
  }

  /** The joined string starts with the separator that ends an empty first piece. */
  lemma {:induction false} SplitJoinSeparator(parts: seq<string>, sep: char)
    requires |parts| > 1 && |parts[0]| == 0
    requires forall i :: 0 <= i < |parts| ==> sep !in parts[i]
    ensures Split(Join(parts, sep), sep) == parts
    decreases |parts|, |parts[0]|, 0
  {
    SplitJoin(parts[1..], sep);
    assert Join(parts, sep) == [sep] + Join(parts[1..], sep);
    assert ([sep] + Join(parts[1..], sep))[1..] == Join(parts[1..], sep);
  }
}
