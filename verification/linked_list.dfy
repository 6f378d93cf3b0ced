/**
 * The array-backed circular doubly linked list of day 20.
 *
 * Node i stores the indices of its successor and predecessor. Moving a node one place
 * forwards swaps it with its successor by relinking six pointers; moving it one place
 * backwards mirrors this. A list state is described by the cyclic order of its nodes,
 * written starting from a chosen node: `[idx] + others`.
 */
module LinkedList {

  import opened Common

  datatype Node = Node(next: nat, prev: nat)

  /** Position after k in a cyclic sequence of length len. */
  function SuccIndex(k: nat, len: nat): nat
    requires k < len
  {
    if k + 1 < len then k + 1 else 0
  }

  /** Position before k in a cyclic sequence of length len. */
  function PredIndex(k: nat, len: nat): nat
    requires k < len
  {
    if k > 0 then k - 1 else len - 1
  }

  /** `order` lists each of the indices 0..|order|-1 exactly once. */
  predicate IsPermutation(order: seq<nat>) {
    && (forall k :: 0 <= k < |order| ==> order[k] < |order|)
    && (forall j, k :: 0 <= j < k < |order| ==> order[j] != order[k])
    && (forall i :: 0 <= i < |order| ==> i in order)
  }

  /** The nodes form a single cycle visiting the node indices in the order given. */
  predicate Represents(nodes: seq<Node>, order: seq<nat>) {
    && |order| == |nodes|
    && IsPermutation(order)
    && forall k :: 0 <= k < |order| ==>
         nodes[order[k]] == Node(order[SuccIndex(k, |order|)], order[PredIndex(k, |order|)])
  }

  predicate LinksInRange(nodes: seq<Node>) {
    forall i :: 0 <= i < |nodes| ==> nodes[i].next < |nodes| && nodes[i].prev < |nodes|
  }

  /** The doubly-linked-list invariant: following a link and then its reverse link returns. */
  predicate LinksConsistent(nodes: seq<Node>) {
    && LinksInRange(nodes)
    && forall i :: 0 <= i < |nodes| ==> nodes[nodes[i].next].prev == i && nodes[nodes[i].prev].next == i
  }

  /** Any list that is one cycle satisfies the link invariant. */
  lemma RepresentsConsistent(nodes: seq<Node>, order: seq<nat>)
    requires Represents(nodes, order)
    ensures LinksConsistent(nodes)
  {
    var len := |order|;
    forall i | 0 <= i < |nodes|
      ensures nodes[i].next < |nodes| && nodes[i].prev < |nodes|
      ensures nodes[nodes[i].next].prev == i && nodes[nodes[i].prev].next == i
    {
      assert i in order;
      var k :| 0 <= k < len && order[k] == i;
      RepresentsLinksAt(nodes, order, k);
    }
  }

  /** The links of the node at position k of the cycle lead back to it. */
  lemma RepresentsLinksAt(nodes: seq<Node>, order: seq<nat>, k: nat)
    requires Represents(nodes, order) && k < |order|
    ensures nodes[order[k]].next < |nodes| && nodes[order[k]].prev < |nodes|
    ensures nodes[nodes[order[k]].next].prev == order[k]
    ensures nodes[nodes[order[k]].prev].next == order[k]
  {
    var len := |order|;
    assert nodes[order[SuccIndex(k, len)]].prev == order[PredIndex(SuccIndex(k, len), len)];
    assert nodes[order[PredIndex(k, len)]].next == order[SuccIndex(PredIndex(k, len), len)];
  }

  lemma RepresentsLinksInRange(nodes: seq<Node>, order: seq<nat>)
    requires Represents(nodes, order)
    ensures LinksInRange(nodes)
  {
    RepresentsConsistent(nodes, order);
  }

  /** A cycle order determines every link. */
  lemma RepresentsUnique(a: seq<Node>, b: seq<Node>, order: seq<nat>)
    requires Represents(a, order) && Represents(b, order)
    ensures a == b
  {
    forall i | 0 <= i < |a|
      ensures a[i] == b[i]
    {
      assert i in order;
      var k :| 0 <= k < |order| && order[k] == i;
    }
  }

  function Range(len: nat): (r: seq<nat>)
    ensures |r| == len && forall i :: 0 <= i < len ==> r[i] == i
  {
    seq(len, i requires 0 <= i < len => i)
  }

  /** A fresh list of `len` nodes linked in index order, wrapping around at the ends. */
  function WithLength(len: nat): (nodes: seq<Node>)
    ensures |nodes| == len
  {
    seq(len, i requires 0 <= i < len => Node((i + 1) % len, (i + len - 1) % len))
  }

  /** The fresh list is the cycle 0, 1, ..., len - 1. */
  lemma WithLengthIsCycle(len: nat)
    ensures Represents(WithLength(len), Range(len))
  {
    var nodes, order := WithLength(len), Range(len);
    forall k | 0 <= k < len
      ensures nodes[order[k]] == Node(order[SuccIndex(k, len)], order[PredIndex(k, len)])
      ensures k in order
    {
      ModOnce(k + 1, len);
      ModOnce(k + len - 1, len);
      assert order[k] == k;
    }
  }

  /** The node reached by following `next` k times. */
  function Follow(nodes: seq<Node>, idx: nat, k: nat): (r: nat)
    requires LinksInRange(nodes) && idx < |nodes|
    ensures r < |nodes|
    decreases k
  {
    if k == 0 then idx else Follow(nodes, nodes[idx].next, k - 1)
  }

  /** Reduction into [0, len) of a position less than two turns round the cycle. */
  function Wrapped(p: nat, len: nat): (r: nat)
    requires p < 2 * len
    ensures r < len
  {
    if p < len then p else p - len
  }

  /** Following j links from position k of the cycle reaches position k + j, wrapping once. */
  lemma {:induction false} FollowAlongCycle(nodes: seq<Node>, order: seq<nat>, k: nat, j: nat)
    requires Represents(nodes, order) && LinksInRange(nodes) && k < |order| && j <= |order|
    ensures Follow(nodes, order[k], j) == order[Wrapped(k + j, |order|)]
    decreases j
  {
    if j > 0 {
      var k' := SuccIndex(k, |order|);
      RepresentsNextAt(nodes, order, k);
      FollowAlongCycle(nodes, order, k', j - 1);
      assert Wrapped(k' + j - 1, |order|) == Wrapped(k + j, |order|);
    }
  }

  /** The successor of the node at position k of the cycle is the node at the next position. */
  lemma RepresentsNextAt(nodes: seq<Node>, order: seq<nat>, k: nat)
    requires Represents(nodes, order) && LinksInRange(nodes) && k < |order|
    ensures Follow(nodes, order[k], 1) == order[SuccIndex(k, |order|)]
  {
    assert nodes[order[k]].next == order[SuccIndex(k, |order|)];
  }

  /** Stepping forward by `amount` follows `amount` mod len links; len must be positive. */
  method StepForward(nodes: seq<Node>, idx: nat, amount: nat) returns (r: nat)
    requires |nodes| > 0 && LinksInRange(nodes) && idx < |nodes|
    ensures r == Follow(nodes, idx, amount % |nodes|)
  {
    var steps := amount % |nodes|;
    r := idx;
    for i := 0 to steps
      invariant r < |nodes|
      invariant Follow(nodes, idx, steps) == Follow(nodes, r, steps - i)
    {
      r := nodes[r].next;
    }
  }

  /** On a cycle, a full turn returns to the start and a step lands on the expected position. */
  lemma StepAroundCycle(nodes: seq<Node>, order: seq<nat>, k: nat, amount: nat)
    requires Represents(nodes, order) && k < |order|
    ensures LinksInRange(nodes)
    ensures Follow(nodes, order[k], |order|) == order[k]
    ensures Follow(nodes, order[k], amount % |order|) == order[(k + amount % |order|) % |order|]
  {
    RepresentsLinksInRange(nodes, order);
    var len := |order|;
    var a := amount % len;
    assert a < len;
    FollowAlongCycle(nodes, order, k, len);
    FollowAlongCycle(nodes, order, k, a);
    ModOnce(k + a, len);
    assert Wrapped(k + a, len) == (k + a) % len;
  }

  /** On a fresh list, stepping forward from i by `amount` reaches i + amount modulo len. */
  lemma FreshStepForward(len: nat, i: nat, amount: nat)
    requires i < len
    ensures LinksInRange(WithLength(len))
    ensures Follow(WithLength(len), i, amount % len) == (i + amount % len) % len
  {
    WithLengthIsCycle(len);
    StepAroundCycle(WithLength(len), Range(len), i, amount);
  }

  /** The sequence rotated to start at position p: the same cycle read from another node. */
  function RotateTo(order: seq<nat>, p: nat): (r: seq<nat>)
    requires p < |order|
    ensures |r| == |order|
    ensures forall k :: 0 <= k < |order| ==> r[k] == order[Wrapped(k + p, |order|)]
  {
    order[p..] + order[..p]
  }

  /** Rotating a permutation gives a permutation. */
  lemma RotatedIsPermutation(order: seq<nat>, p: nat)
    requires IsPermutation(order) && p < |order|
    ensures IsPermutation(RotateTo(order, p))
  {
    var len, r := |order|, RotateTo(order, p);
    forall i | 0 <= i < len
      ensures i in r
    {
      assert i in order;
      var j :| 0 <= j < len && order[j] == i;
      var k := if j >= p then j - p else j + len - p;
      assert r[k] == i;
    }
    forall i, j | 0 <= i < j < len
      ensures r[i] != r[j]
    {
      assert Wrapped(i + p, len) != Wrapped(j + p, len);
    }
  }

  /** A cycle may be read starting from any of its nodes. */
  lemma RepresentsRotated(nodes: seq<Node>, order: seq<nat>, p: nat)
    requires Represents(nodes, order) && p < |order|
    ensures Represents(nodes, RotateTo(order, p))
  {
    var len, r := |order|, RotateTo(order, p);
    RotatedIsPermutation(order, p);
    forall k | 0 <= k < len
      ensures nodes[r[k]] == Node(r[SuccIndex(k, len)], r[PredIndex(k, len)])
    {
      var w := Wrapped(k + p, len);
      assert nodes[order[w]] == Node(order[SuccIndex(w, len)], order[PredIndex(w, len)]);
      RotatedLinksAt(nodes, order, p, k);
    }
  }

  /** The links at position k of the rotated order are those at position k + p of the original. */
  lemma RotatedLinksAt(nodes: seq<Node>, order: seq<nat>, p: nat, k: nat)
    requires p < |order| && k < |order|
    requires var w := Wrapped(k + p, |order|);
      order[w] < |nodes| &&
      nodes[order[w]] == Node(order[SuccIndex(w, |order|)], order[PredIndex(w, |order|)])
    ensures RotateTo(order, p)[k] < |nodes|
    ensures nodes[RotateTo(order, p)[k]] ==
      Node(RotateTo(order, p)[SuccIndex(k, |order|)], RotateTo(order, p)[PredIndex(k, |order|)])
  {
    var len, r := |order|, RotateTo(order, p);
    var w := Wrapped(k + p, len);
    WrappedNeighbours(k, p, len);
    assert r[k] == order[w];
    assert r[SuccIndex(k, len)] == order[SuccIndex(w, len)];
    assert r[PredIndex(k, len)] == order[PredIndex(w, len)];
  }

  /** Rotating by p commutes with stepping to the next or previous position. */
  lemma WrappedNeighbours(k: nat, p: nat, len: nat)
    requires k < len && p < len
    ensures Wrapped(SuccIndex(k, len) + p, len) == SuccIndex(Wrapped(k + p, len), len)
    ensures Wrapped(PredIndex(k, len) + p, len) == PredIndex(Wrapped(k + p, len), len)
  {
  }

  /**
   * One iteration of the forward move: the node `idx` trades places with its successor
   * by relinking its predecessor, itself, its successor and the successor's successor,
   * in that order.
   */
  function ShiftRightOnce(nodes: seq<Node>, idx: nat): (r: seq<Node>)
    requires LinksInRange(nodes) && idx < |nodes|
    ensures |r| == |nodes| && LinksInRange(r)
  {
    var prev, curr, next := nodes[idx].prev, idx, nodes[idx].next;
    var nextNext := nodes[next].next;
    var s1 := nodes[prev := nodes[prev].(next := next)];
    var s2 := s1[curr := s1[curr].(prev := next, next := nextNext)];
    var s3 := s2[next := s2[next].(prev := prev, next := curr)];
    s3[nextNext := s3[nextNext].(prev := curr)]
  }

  /** One iteration of the backward move: the mirror image of `ShiftRightOnce`. */
  function ShiftLeftOnce(nodes: seq<Node>, idx: nat): (r: seq<Node>)
    requires LinksInRange(nodes) && idx < |nodes|
    ensures |r| == |nodes| && LinksInRange(r)
  {
    var prev, curr, next := nodes[idx].prev, idx, nodes[idx].next;
    var prevPrev := nodes[prev].prev;
    var s1 := nodes[prevPrev := nodes[prevPrev].(next := curr)];
    var s2 := s1[prev := s1[prev].(prev := curr, next := next)];
    var s3 := s2[curr := s2[curr].(prev := prevPrev, next := prev)];
    s3[next := s3[next].(prev := prev)]
  }

  /** The links a forward move rewrites, given the four nodes around `idx`. */
  lemma ShiftRightOnceEffect(nodes: seq<Node>, idx: nat, a: nat, b: nat, z: nat)
    requires LinksInRange(nodes) && idx < |nodes|
    requires nodes[idx] == Node(a, z) && nodes[a].next == b
    requires idx != a && idx != b && idx != z && a != b && a != z
    ensures ShiftRightOnce(nodes, idx)[idx] == Node(b, a)
    ensures ShiftRightOnce(nodes, idx)[a] == Node(idx, z)
    ensures ShiftRightOnce(nodes, idx)[z].next == a
    ensures ShiftRightOnce(nodes, idx)[b].prev == idx
    ensures z != b ==> ShiftRightOnce(nodes, idx)[z].prev == nodes[z].prev
    ensures z != b ==> ShiftRightOnce(nodes, idx)[b].next == nodes[b].next
    ensures forall x :: 0 <= x < |nodes| && x != idx && x != a && x != b && x != z ==>
              ShiftRightOnce(nodes, idx)[x] == nodes[x]
  {
  }

  /** Swapping the first two entries of a permutation gives a permutation. */
  lemma SwapFrontIsPermutation(idx: nat, others: seq<nat>)
    requires IsPermutation([idx] + others) && |others| >= 1
    ensures IsPermutation([others[0], idx] + others[1..])
  {
    var order, o' := [idx] + others, [others[0], idx] + others[1..];
    var len := |order|;
    forall i | 0 <= i < len
      ensures i in o'
    {
      assert i in order;
      var j :| 0 <= j < len && order[j] == i;
      if j == 0 { assert o'[1] == i; } else if j == 1 { assert o'[0] == i; } else { assert o'[j] == i; }
    }
    forall i, j | 0 <= i < j < len
      ensures o'[i] != o'[j]
    {
      var i' := if i == 0 then 1 else if i == 1 then 0 else i;
      var j' := if j == 0 then 1 else if j == 1 then 0 else j;
      assert o'[i] == order[i'] && o'[j] == order[j'];
    }
    forall k | 0 <= k < len
      ensures o'[k] < len
    {
      var k' := if k == 0 then 1 else if k == 1 then 0 else k;
      assert o'[k] == order[k'];
    }
  }

  /** With at least three nodes, a forward move swaps the first node of the cycle with the second. */
  lemma ShiftRightOnceSwaps(nodes: seq<Node>, idx: nat, others: seq<nat>)
    requires Represents(nodes, [idx] + others) && |others| >= 2
    ensures LinksInRange(nodes) && idx < |nodes|
    ensures Represents(ShiftRightOnce(nodes, idx), [others[0], idx] + others[1..])
  {
    var order := [idx] + others;
    var len := |order|;
    ShiftRightOnceFront(nodes, idx, others);
    SwapFrontIsPermutation(idx, others);
    var r := ShiftRightOnce(nodes, idx);
    var o' := [others[0], idx] + others[1..];
    forall k | 0 <= k < len
      ensures r[o'[k]] == Node(o'[SuccIndex(k, len)], o'[PredIndex(k, len)])
    {
      if k >= 2 {
        ShiftRightOnceTail(nodes, idx, others, k);
      } else {
        assert o'[0] == others[0] && o'[1] == idx && o'[2] == others[1];
        assert o'[len - 1] == others[|others| - 1];
      }
    }
    assert Represents(r, o');
  }

  /** The relinking at the front of the cycle: `idx` and its successor trade places. */
  lemma ShiftRightOnceFront(nodes: seq<Node>, idx: nat, others: seq<nat>)
    requires Represents(nodes, [idx] + others) && |others| >= 2
    ensures LinksInRange(nodes) && idx < |nodes|
    ensures ShiftRightOnce(nodes, idx)[idx] == Node(others[1], others[0])
    ensures ShiftRightOnce(nodes, idx)[others[0]] == Node(idx, others[|others| - 1])
  {
    var order := [idx] + others;
    var len := |order|;
    RepresentsLinksInRange(nodes, order);
    assert order[0] == idx && order[0] < len;
    assert nodes[order[0]] == Node(order[1], order[len - 1]);
    assert nodes[order[1]].next == order[2];
    ShiftRightOnceEffect(nodes, idx, order[1], order[2], order[len - 1]);
  }

  /** Beyond the swapped pair, every node keeps its place in the cycle. */
  lemma ShiftRightOnceTail(nodes: seq<Node>, idx: nat, others: seq<nat>, k: nat)
    requires Represents(nodes, [idx] + others) && |others| >= 2 && 2 <= k <= |others|
    ensures LinksInRange(nodes) && idx < |nodes| && others[k - 1] < |nodes|
    ensures var o', len := [others[0], idx] + others[1..], |others| + 1;
      ShiftRightOnce(nodes, idx)[o'[k]] == Node(o'[SuccIndex(k, len)], o'[PredIndex(k, len)])
  {
    var order := [idx] + others;
    var len := |order|;
    RepresentsLinksInRange(nodes, order);
    assert order[0] == idx && order[0] < len;
    var a, b, z := order[1], order[2], order[len - 1];
    assert nodes[order[0]] == Node(order[1], order[len - 1]);
    assert nodes[order[1]].next == order[2];
    assert nodes[order[2]].prev == order[1];
    assert nodes[order[len - 1]].next == order[0];
    ShiftRightOnceEffect(nodes, idx, a, b, z);
    var r := ShiftRightOnce(nodes, idx);
    var o' := [others[0], idx] + others[1..];
    assert o'[k] == order[k];
    var x := order[k];
    assert nodes[x] == Node(order[SuccIndex(k, len)], order[PredIndex(k, len)]);
    if k == 2 && k == len - 1 {
    } else if k == 2 {
      assert x != z;
      assert o'[SuccIndex(k, len)] == order[SuccIndex(k, len)];
    } else if k == len - 1 {
      assert x != b;
      assert o'[PredIndex(k, len)] == order[PredIndex(k, len)];
    } else {
      assert x != b && x != z;
      assert o'[SuccIndex(k, len)] == order[SuccIndex(k, len)];
      assert o'[PredIndex(k, len)] == order[PredIndex(k, len)];
    }
  }

  /** Read from `idx`, a forward move carries `idx` past its successor. */
  lemma ShiftRightOnceMoves(nodes: seq<Node>, idx: nat, others: seq<nat>)
    requires Represents(nodes, [idx] + others) && |others| >= 2
    ensures LinksInRange(nodes) && idx < |nodes|
    ensures Represents(ShiftRightOnce(nodes, idx), [idx] + others[1..] + [others[0]])
  {
    ShiftRightOnceSwaps(nodes, idx, others);
    var o' := [others[0], idx] + others[1..];
    RepresentsRotated(ShiftRightOnce(nodes, idx), o', 1);
    assert RotateTo(o', 1) == [idx] + others[1..] + [others[0]];
  }

  /** Reading a cycle from its last entry. */
  lemma RotateToLast(idx: nat, others: seq<nat>)
    requires |others| >= 1
    ensures RotateTo([idx] + others, |others|) == [others[|others| - 1]] + ([idx] + others[..|others| - 1])
  {
    var order, m := [idx] + others, |others| - 1;
    assert order[m + 1..] == [others[m]];
    assert order[..m + 1] == [idx] + others[..m];
  }

  /**
   * A backward move of `idx` performs exactly the relinking of a forward move of its
   * predecessor, whenever that predecessor links back to `idx`.
   */
  lemma ShiftLeftIsShiftRightOfPrev(nodes: seq<Node>, idx: nat)
    requires LinksInRange(nodes) && idx < |nodes|
    requires nodes[nodes[idx].prev].next == idx
    ensures ShiftLeftOnce(nodes, idx) == ShiftRightOnce(nodes, nodes[idx].prev)
  {
  }

  /** Read from `idx`, a backward move carries `idx` before its predecessor. */
  lemma ShiftLeftOnceMoves(nodes: seq<Node>, idx: nat, others: seq<nat>)
    requires Represents(nodes, [idx] + others) && |others| >= 2
    ensures LinksInRange(nodes) && idx < |nodes|
    ensures Represents(ShiftLeftOnce(nodes, idx), [idx, others[|others| - 1]] + others[..|others| - 1])
  {
    var order := [idx] + others;
    var len, m := |order|, |others| - 1;
    RepresentsLinksInRange(nodes, order);
    assert order[0] == idx && order[0] < len;
    assert nodes[order[0]].prev == order[len - 1];
    assert nodes[order[len - 1]].next == order[0];
    ShiftLeftIsShiftRightOfPrev(nodes, idx);
    var z := others[m];
    RepresentsRotated(nodes, order, len - 1);
    RotateToLast(idx, others);
    ShiftRightOnceSwaps(nodes, z, [idx] + others[..m]);
    assert [([idx] + others[..m])[0], z] + ([idx] + others[..m])[1..] == [idx, z] + others[..m];
  }

  /** The sequence rotated left one place, k times over. */
  function CycleLeft(s: seq<nat>, k: nat): (r: seq<nat>)
    ensures |r| == |s|
  {
    if k == 0 || |s| == 0 then s else var t := CycleLeft(s, k - 1); t[1..] + [t[0]]
  }

  /** The sequence rotated right one place, k times over. */
  function CycleRight(s: seq<nat>, k: nat): (r: seq<nat>)
    ensures |r| == |s|
  {
    if k == 0 || |s| == 0 then s else var t := CycleRight(s, k - 1); [t[|t| - 1]] + t[..|t| - 1]
  }

  /** Up to a full turn, k left rotations move the first k entries to the back. */
  lemma {:induction false} CycleLeftClosedForm(s: seq<nat>, k: nat)
    requires k <= |s|
    ensures CycleLeft(s, k) == s[k..] + s[..k]
  {
    if k > 0 {
      CycleLeftClosedForm(s, k - 1);
      var t := s[k - 1..] + s[..k - 1];
      assert t[1..] == s[k..] + s[..k - 1];
      assert s[..k - 1] + [s[k - 1]] == s[..k];
    }
  }

  /** Up to a full turn, k right rotations move the last k entries to the front. */
  lemma {:induction false} CycleRightClosedForm(s: seq<nat>, k: nat)
    requires k <= |s|
    ensures CycleRight(s, k) == s[|s| - k..] + s[..|s| - k]
  {
    if k > 0 {
      CycleRightClosedForm(s, k - 1);
      var n := |s|;
      var t := s[n - k + 1..] + s[..n - k + 1];
      assert t[|t| - 1] == s[n - k];
      assert t[..|t| - 1] == s[n - k + 1..] + s[..n - k];
      assert [s[n - k]] + s[n - k + 1..] == s[n - k..];
    }
  }

  /** k rotations one way are |s| - k rotations the other way. */
  lemma CycleRightIsCycleLeft(s: seq<nat>, k: nat)
    requires k <= |s|
    ensures CycleRight(s, |s| - k) == CycleLeft(s, k)
  {
    CycleLeftClosedForm(s, k);
    CycleRightClosedForm(s, |s| - k);
  }

  /** One more single move advances the rotation of the nodes after `idx` by one. */
  lemma ShiftRightStep(nodes: seq<Node>, idx: nat, others: seq<nat>, i: nat)
    requires Represents(nodes, [idx] + CycleLeft(others, i)) && |others| >= 2
    ensures LinksInRange(nodes) && idx < |nodes|
    ensures Represents(ShiftRightOnce(nodes, idx), [idx] + CycleLeft(others, i + 1))
  {
    var t := CycleLeft(others, i);
    ShiftRightOnceMoves(nodes, idx, t);
    assert [idx] + t[1..] + [t[0]] == [idx] + CycleLeft(others, i + 1);
  }

  /**
   * Moves `idx` forward `amount` places. On a cycle of at least three nodes read from
   * `idx`, the nodes after `idx` end up rotated left `amount` times.
   */
  method ShiftRight(nodes: seq<Node>, idx: nat, amount: nat, ghost others: seq<nat>) returns (r: seq<Node>)
    requires LinksInRange(nodes) && idx < |nodes|
    ensures |r| == |nodes| && LinksInRange(r)
    ensures Represents(nodes, [idx] + others) && (|others| >= 2 || amount == 0) ==>
              Represents(r, [idx] + CycleLeft(others, amount))
  {
    r := nodes;
    for i := 0 to amount
      invariant |r| == |nodes| && LinksInRange(r)
      invariant Represents(nodes, [idx] + others) && (|others| >= 2 || amount == 0) ==>
                  Represents(r, [idx] + CycleLeft(others, i))
    {
      if Represents(r, [idx] + CycleLeft(others, i)) && |others| >= 2 {
        ShiftRightStep(r, idx, others, i);
      }
      r := ShiftRightOnce(r, idx);
    }
  }

  /** One more single move advances the rotation of the nodes after `idx` by one. */
  lemma ShiftLeftStep(nodes: seq<Node>, idx: nat, others: seq<nat>, i: nat)
    requires Represents(nodes, [idx] + CycleRight(others, i)) && |others| >= 2
    ensures LinksInRange(nodes) && idx < |nodes|
    ensures Represents(ShiftLeftOnce(nodes, idx), [idx] + CycleRight(others, i + 1))
  {
    var t := CycleRight(others, i);
    ShiftLeftOnceMoves(nodes, idx, t);
    assert [idx, t[|t| - 1]] + t[..|t| - 1] == [idx] + CycleRight(others, i + 1);
  }

  /**
   * Moves `idx` backward `amount` places. On a cycle of at least three nodes read from
   * `idx`, the nodes after `idx` end up rotated right `amount` times.
   */
  method ShiftLeft(nodes: seq<Node>, idx: nat, amount: nat, ghost others: seq<nat>) returns (r: seq<Node>)
    requires LinksInRange(nodes) && idx < |nodes|
    ensures |r| == |nodes| && LinksInRange(r)
    ensures Represents(nodes, [idx] + others) && (|others| >= 2 || amount == 0) ==>
              Represents(r, [idx] + CycleRight(others, amount))
  {
    r := nodes;
    for i := 0 to amount
      invariant |r| == |nodes| && LinksInRange(r)
      invariant Represents(nodes, [idx] + others) && (|others| >= 2 || amount == 0) ==>
                  Represents(r, [idx] + CycleRight(others, i))
    {
      if Represents(r, [idx] + CycleRight(others, i)) && |others| >= 2 {
        ShiftLeftStep(r, idx, others, i);
      }
      r := ShiftLeftOnce(r, idx);
    }
  }

  /**
   * Moves `idx` by `shift` places, which may be negative. A node passing all the
   * |nodes| - 1 others returns to the same cyclic order, so the shift is reduced
   * modulo |nodes| - 1 and then made in whichever direction needs fewer single moves.
   */
  method ShiftNode(nodes: seq<Node>, idx: nat, shift: int, ghost others: seq<nat>) returns (r: seq<Node>, moves: nat)
    requires |nodes| >= 2 && LinksInRange(nodes) && idx < |nodes|
    ensures |r| == |nodes| && LinksInRange(r)
    ensures moves <= (|nodes| - 1) / 2
    ensures Represents(nodes, [idx] + others) ==>
              Represents(r, [idx] + CycleLeft(others, shift % (|nodes| - 1)))
  {
    var len := |nodes|;
    var shiftAmount := shift % (len - 1);
    if shiftAmount <= len - 1 - shiftAmount {
      r := ShiftRight(nodes, idx, shiftAmount, others);
      moves := shiftAmount;
    } else {
      r := ShiftLeft(nodes, idx, len - shiftAmount - 1, others);
      moves := len - shiftAmount - 1;
      if Represents(nodes, [idx] + others) {
        CycleRightIsCycleLeft(others, shiftAmount);
      }
    }
  }

  /** With only two nodes a single forward move breaks the link invariant. */
  lemma ShiftRightBreaksPair()
    ensures LinksInRange(WithLength(2)) && Represents(WithLength(2), [0, 1])
    ensures !LinksConsistent(ShiftRightOnce(WithLength(2), 0))
  {
    WithLengthIsCycle(2);
    assert Range(2) == [0, 1];
    RepresentsLinksInRange(WithLength(2), [0, 1]);
    var r := ShiftRightOnce(WithLength(2), 0);
    assert r[1].next == 0 && r[0].prev == 0;
  }
}
