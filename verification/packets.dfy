/**
 * Distress-signal packets (day 13): a packet is an integer or a list of packets.
 *
 * Two integers compare as integers, two lists lexicographically, and an integer met by
 * a list is first wrapped in a one-element list. The comparison is partial in its type
 * (it returns an optional ordering, as `PartialOrd` does) but is proved to be total,
 * reflexive and antisymmetric.
 */
module Packets {

  import opened Common

  datatype Packet = Number(n: nat) | List(items: seq<Packet>)

  function Size(p: Packet): nat {
    match p
    case Number(_) => 1
    case List(items) => 1 + SizeOfAll(items)
  }

  function SizeOfAll(ps: seq<Packet>): nat {
    if |ps| == 0 then 0 else Size(ps[0]) + SizeOfAll(ps[1..])
  }

  lemma SizePositive(p: Packet)
    ensures Size(p) >= 1
  {
  }

  lemma SingletonSize(p: Packet)
    ensures SizeOfAll([p]) == Size(p)
  {
    assert [p][1..] == [];
  }

  /** `partial_cmp` on packets. */
  function PartialCmp(p: Packet, q: Packet): (r: Option<Ordering>)
    ensures r.Some?
    decreases Size(p) + Size(q), 0
  {
    match (p, q)
    case (Number(a), Number(b)) => Some(CompareInt(a, b))
    case (Number(a), List(ys)) => SingletonSize(p); PartialCmpLists([Number(a)], ys)
    case (List(xs), Number(b)) => SingletonSize(q); PartialCmpLists(xs, [Number(b)])
    case (List(xs), List(ys)) => PartialCmpLists(xs, ys)
  }

  /** `partial_cmp` on slices of packets: the first non-Equal item decides, then the lengths. */
  function PartialCmpLists(xs: seq<Packet>, ys: seq<Packet>): (r: Option<Ordering>)
    ensures r.Some?
    decreases SizeOfAll(xs) + SizeOfAll(ys), 1
  {
    if |xs| == 0 || |ys| == 0 then Some(CompareInt(|xs|, |ys|))
    else
      SizePositive(xs[0]);
      SizePositive(ys[0]);
      match PartialCmp(xs[0], ys[0])
      case Some(Equal) => PartialCmpLists(xs[1..], ys[1..])
      case other => other
  }

  /** `eq`: the comparison says Equal. */
  predicate Eq(p: Packet, q: Packet) {
    PartialCmp(p, q) == Some(Equal)
  }

  predicate Lt(p: Packet, q: Packet) {
    PartialCmp(p, q) == Some(Less)
  }

  predicate Le(p: Packet, q: Packet) {
    PartialCmp(p, q) == Some(Less) || PartialCmp(p, q) == Some(Equal)
  }

  /** Two integers compare as integers. */
  lemma NumbersCompareAsIntegers(a: nat, b: nat)
    ensures Lt(Number(a), Number(b)) <==> a < b
    ensures Eq(Number(a), Number(b)) <==> a == b
    ensures PartialCmp(Number(a), Number(b)) == Some(Greater) <==> a > b
  {
  }

  /** An integer against a list is the one-element list against it, on either side. */
  lemma NumberIsWrapped(a: nat, ys: seq<Packet>)
    ensures PartialCmp(Number(a), List(ys)) == PartialCmp(List([Number(a)]), List(ys))
    ensures PartialCmp(List(ys), Number(a)) == PartialCmp(List(ys), List([Number(a)]))
  {
  }

  /** Every packet equals itself. */
  lemma {:induction false} CmpReflexive(p: Packet)
    ensures PartialCmp(p, p) == Some(Equal)
    decreases Size(p), 0
  {
    match p
    case Number(_) =>
    case List(items) => CmpListsReflexive(items);
  }

  lemma {:induction false} CmpListsReflexive(ps: seq<Packet>)
    ensures PartialCmpLists(ps, ps) == Some(Equal)
    decreases SizeOfAll(ps), 1
  {
    if |ps| > 0 {
      SizePositive(ps[0]);
      CmpReflexive(ps[0]);
      CmpListsReflexive(ps[1..]);
    }
  }

  /** An integer equals the list holding just that integer. */
  lemma NumberEqualsSingleton(n: nat)
    ensures Eq(Number(n), List([Number(n)]))
    ensures Eq(List([Number(n)]), Number(n))
  {
    CmpListsReflexive([Number(n)]);
  }

  /** Swapping the arguments reverses the ordering. */
  lemma {:induction false} CmpAntisymmetric(p: Packet, q: Packet)
    ensures PartialCmp(q, p) == Some(PartialCmp(p, q).value.Reverse())
    decreases Size(p) + Size(q), 0
  {
    match (p, q)
    case (Number(a), Number(b)) =>
    case (Number(a), List(ys)) =>
      SingletonSize(p);
      CmpListsAntisymmetric([Number(a)], ys);
    case (List(xs), Number(b)) =>
      SingletonSize(q);
      CmpListsAntisymmetric(xs, [Number(b)]);
    case (List(xs), List(ys)) => CmpListsAntisymmetric(xs, ys);
  }

  lemma {:induction false} CmpListsAntisymmetric(xs: seq<Packet>, ys: seq<Packet>)
    ensures PartialCmpLists(ys, xs) == Some(PartialCmpLists(xs, ys).value.Reverse())
    decreases SizeOfAll(xs) + SizeOfAll(ys), 1
  {
    if |xs| > 0 && |ys| > 0 {
      SizePositive(xs[0]);
      SizePositive(ys[0]);
      CmpAntisymmetric(xs[0], ys[0]);
      CmpListsAntisymmetric(xs[1..], ys[1..]);
    }
  }

  /** Lexicographic order: a proper prefix of a list comes first. */
  lemma {:induction false} ProperPrefixIsLess(xs: seq<Packet>, ys: seq<Packet>)
    requires |ys| > 0
    ensures PartialCmpLists(xs, xs + ys) == Some(Less)
    decreases |xs|
  {
    if |xs| > 0 {
      CmpReflexive(xs[0]);
      assert (xs + ys)[0] == xs[0] && (xs + ys)[1..] == xs[1..] + ys;
      ProperPrefixIsLess(xs[1..], ys);
    }
  }

  /** Lexicographic order: after a run of Equal items, the first non-Equal item decides. */
  lemma {:induction false} FirstDifferenceDecides(xs: seq<Packet>, ys: seq<Packet>, k: nat)
    requires k < |xs| && k < |ys|
    requires forall i :: 0 <= i < k ==> PartialCmp(xs[i], ys[i]) == Some(Equal)
    requires PartialCmp(xs[k], ys[k]) != Some(Equal)
    ensures PartialCmpLists(xs, ys) == PartialCmp(xs[k], ys[k])
    decreases k
  {
    if k > 0 {
      FirstDifferenceDecides(xs[1..], ys[1..], k - 1);
    }
  }
}
