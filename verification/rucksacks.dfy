/**
 * Rucksack reorganisation (day 3). Rucksack contents are byte strings; the model works
 * on the byte sets the source builds with `HashSet`, whose iteration order does not
 * matter to any result.
 */
module Rucksacks {

  import opened Common

  newtype byte = x: int | 0 <= x < 256

  /** The two compartments: the first half (rounded down) and the rest. */
  function SplitInHalf(s: seq<byte>): (r: (seq<byte>, seq<byte>))
    ensures r.0 + r.1 == s
    ensures |r.0| == |s| / 2
    ensures |r.1| == |r.0| || |r.1| == |r.0| + 1
  {
    var halfway := |s| / 2;
    assert s[..halfway] + s[halfway..] == s;
    (s[..halfway], s[halfway..])
  }

  function ByteSet(s: seq<byte>): (r: set<byte>)
    ensures forall b :: b in r <==> b in s
  {
    set i | 0 <= i < |s| :: s[i]
  }

  /** The distinct bytes occurring in both strings. */
  function FindCommonBytes(s1: seq<byte>, s2: seq<byte>): (r: set<byte>)
    ensures forall b :: b in r <==> b in s1 && b in s2
  {
    ByteSet(s1) * ByteSet(s2)
  }

  /**
   * The bytes occurring in every item, intersecting the items' byte sets from the
   * first; an empty list of items is an error.
   */
  function FindCommonBytesIter(items: seq<seq<byte>>): (r: Option<set<byte>>)
    ensures r.None? <==> |items| == 0
    ensures r.Some? ==> forall b :: b in r.value <==> forall k :: 0 <= k < |items| ==> b in items[k]
    decreases |items|
  {
    if |items| == 0 then None
    else if |items| == 1 then Some(ByteSet(items[0]))
    else
      var acc := FindCommonBytesIter(items[..|items| - 1]).value;
      Some(acc * ByteSet(items[|items| - 1]))
  }

  /** For two items the fold is the pairwise intersection. */
  lemma CommonOfTwo(s1: seq<byte>, s2: seq<byte>)
    ensures FindCommonBytesIter([s1, s2]) == Some(FindCommonBytes(s1, s2))
  {
    assert [s1, s2][..1] == [s1];
  }

  const LowerA: byte := 97
  const LowerZ: byte := 122
  const UpperA: byte := 65
  const UpperZ: byte := 90

  /** `a`..`z` have priorities 1..26 and `A`..`Z` 27..52; any other byte is an error. */
  function Priority(b: byte): (r: Option<nat>)
    ensures r.Some? <==> LowerA <= b <= LowerZ || UpperA <= b <= UpperZ
    ensures r.Some? ==> 1 <= r.value <= 52
    ensures r.Some? ==> (r.value <= 26 <==> LowerA <= b <= LowerZ)
  {
    if LowerA <= b <= LowerZ then Some((b - LowerA + 1) as nat)
    else if UpperA <= b <= UpperZ then Some((b - UpperA + 27) as nat)
    else None
  }

  /** The letter with a given priority. */
  function LetterOfPriority(p: nat): (b: byte)
    requires 1 <= p <= 52
  {
    if p <= 26 then LowerA + (p - 1) as byte else UpperA + (p - 27) as byte
  }

  /** Priorities and letters are inverse, so no two letters share a priority. */
  lemma PriorityIsBijective(b: byte, p: nat)
    ensures 1 <= p <= 52 ==> Priority(LetterOfPriority(p)) == Some(p)
    ensures Priority(b).Some? ==> LetterOfPriority(Priority(b).value) == b
  {
  }

  lemma PriorityIsInjective(a: byte, b: byte)
    requires Priority(a).Some? && Priority(a) == Priority(b)
    ensures a == b
  {
    PriorityIsBijective(a, 0);
    PriorityIsBijective(b, 0);
  }
}
