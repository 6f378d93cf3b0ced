/**
 * Tuning trouble (day 6): the position just after the first window of `n` pairwise
 * different characters.
 */
module Marker {

  import opened Common

  /** No character occurs twice. */
  predicate AllUnique(s: string) {
    forall i, j :: 0 <= i < j < |s| ==> s[i] != s[j]
  }

  /** `all_unique` as a scan that remembers the characters seen so far. */
  method IsAllUnique(s: string) returns (unique: bool)
    ensures unique <==> AllUnique(s)
  {
    var seen: set<char> := {};
    for k := 0 to |s|
      invariant seen == set i | 0 <= i < k :: s[i]
      invariant AllUnique(s[..k])
    {
      if s[k] in seen {
        assert !AllUnique(s);
        return false;
      }
      seen := seen + {s[k]};
    }
    assert s[..|s|] == s;
    return true;
  }

  /** The window of length n that starts at p is all different. */
  predicate DistinctAt(data: string, n: nat, p: nat)
    requires p + n <= |data|
  {
    AllUnique(data[p..p + n])
  }

  /**
   * `characters_until_n_distinct`: p + n for the first p whose window qualifies, or an
   * error when none does. A window of length 0 is a panic in the source.
   */
  method CharactersUntilNDistinct(data: string, n: nat) returns (r: Option<nat>)
    requires n > 0
    ensures r.Some? ==> n <= r.value <= |data| && DistinctAt(data, n, r.value - n)
    ensures r.Some? ==> forall p :: 0 <= p < r.value - n ==> !DistinctAt(data, n, p)
    ensures r.None? <==> forall p :: 0 <= p && p + n <= |data| ==> !DistinctAt(data, n, p)
  {
    var p := 0;
    while p + n <= |data|
      invariant forall q :: 0 <= q < p && q + n <= |data| ==> !DistinctAt(data, n, q)
      decreases |data| - p
    {
      var unique := IsAllUnique(data[p..p + n]);
      if unique {
        assert DistinctAt(data, n, p);
        return Some(p + n);
      }
      p := p + 1;
    }
    return None;
  }
}
