/**
 * Unstable diffusion (day 23): elves on an unbounded grid spread out in rounds. In each
 * round every elf with a neighbour proposes the first direction, in the current order,
 * whose three cells ahead are empty; an elf moves only if no other elf proposed the same
 * cell. The elves' hash set is modelled as a `set`, so nothing depends on its iteration
 * order.
 */
module Elves {

  import opened Common

  /** `(row, column)`; the source's `isize` is unbounded here. */
  type Point = (int, int)

  /** A direction of travel and the cells, relative to the elf, that must be empty for it. */
  datatype Movement = Movement(delta: Point, checks: seq<Point>)

  function Offset(p: Point, d: Point): Point {
    (p.0 + d.0, p.1 + d.1)
  }

  /** Two different cells that touch, diagonally included. */
  predicate Touching(p: Point, q: Point) {
    p != q && Abs(p.0 - q.0) <= 1 && Abs(p.1 - q.1) <= 1
  }

  /** `all_neighbours`: the eight cells around p, clockwise from the upper left. */
  function AllNeighbours(p: Point): (r: seq<Point>)
    ensures |r| == 8 && NoRepeats(r)
    ensures forall q :: q in r <==> Touching(p, q)
  {
    var (x, y) := p;
    var r := [(x - 1, y - 1), (x - 1, y), (x - 1, y + 1), (x, y + 1), (x + 1, y + 1), (x + 1, y), (x + 1, y - 1), (x, y - 1)];
    NeighboursAreTouching(p, r);
    r
  }

  lemma NeighboursAreTouching(p: Point, r: seq<Point>)
    requires r == [(p.0 - 1, p.1 - 1), (p.0 - 1, p.1), (p.0 - 1, p.1 + 1), (p.0, p.1 + 1),
                   (p.0 + 1, p.1 + 1), (p.0 + 1, p.1), (p.0 + 1, p.1 - 1), (p.0, p.1 - 1)]
    ensures forall q :: q in r <==> Touching(p, q)
  {
    forall q | Touching(p, q) ensures q in r {
      var dx, dy := q.0 - p.0, q.1 - p.1;
      assert -1 <= dx <= 1 && -1 <= dy <= 1 && (dx, dy) != (0, 0);
      assert q == (p.0 + dx, p.1 + dy);
    }
  }

  /** `elf_should_move`: some neighbouring cell holds an elf. */
  predicate ShouldMove(elf: Point, elves: set<Point>) {
    exists q :: q in AllNeighbours(elf) && q in elves
  }

  /** `movement_required`: some elf should move. */
  predicate MovementRequired(elves: set<Point>) {
    exists e :: e in elves && ShouldMove(e, elves)
  }

  /** An elf should move exactly when another elf touches it. */
  lemma ShouldMoveIffTouching(elf: Point, elves: set<Point>)
    ensures ShouldMove(elf, elves) <==> exists q :: q in elves && Touching(elf, q)
  {
    if q :| q in elves && Touching(elf, q) {
      assert q in AllNeighbours(elf);
    }
  }

  /** Movement is required exactly when two elves touch. */
  lemma MovementRequiredIffTouching(elves: set<Point>)
    ensures MovementRequired(elves) <==> exists e, q :: e in elves && q in elves && Touching(e, q)
  {
    if e, q :| e in elves && q in elves && Touching(e, q) {
      ShouldMoveIffTouching(e, elves);
    }
  }

  /** The cells a movement checks are all empty. */
  predicate Clear(m: Movement, elf: Point, elves: set<Point>) {
    forall c :: c in m.checks ==> Offset(elf, c) !in elves
  }

  /** Movement i is the first clear one in the order. */
  predicate IsFirstClear(order: seq<Movement>, elf: Point, elves: set<Point>, i: int) {
    0 <= i < |order| && Clear(order[i], elf, elves) &&
    forall j :: 0 <= j < i ==> !Clear(order[j], elf, elves)
  }

  /** The `find` over the movement order, from index `from` on. */
  function FirstClear(order: seq<Movement>, elf: Point, elves: set<Point>, from: nat): (r: Option<nat>)
    requires from <= |order|
    ensures r.Some? ==> from <= r.value < |order| && Clear(order[r.value], elf, elves)
    ensures r.Some? ==> forall j :: from <= j < r.value ==> !Clear(order[j], elf, elves)
    ensures r.None? <==> forall j :: from <= j < |order| ==> !Clear(order[j], elf, elves)
    decreases |order| - from
  {
    if from == |order| then None
    else if Clear(order[from], elf, elves) then Some(from)
    else FirstClear(order, elf, elves, from + 1)
  }

  /**
   * The cell an elf proposes: its own when it has no neighbour, otherwise one step along
   * the first clear movement, or its own when none is clear.
   */
  function Proposal(elf: Point, elves: set<Point>, order: seq<Movement>): (r: Point)
    ensures !ShouldMove(elf, elves) ==> r == elf
    ensures ShouldMove(elf, elves) && (forall j :: 0 <= j < |order| ==> !Clear(order[j], elf, elves)) ==> r == elf
    ensures r == elf || exists i :: IsFirstClear(order, elf, elves, i) && r == Offset(elf, order[i].delta)
    ensures ShouldMove(elf, elves) ==> forall i :: IsFirstClear(order, elf, elves, i) ==> r == Offset(elf, order[i].delta)
  {
    if !ShouldMove(elf, elves) then elf
    else
      match FirstClear(order, elf, elves, 0)
      case None => elf
      case Some(i) =>
        assert IsFirstClear(order, elf, elves, i);
        FirstIsUnique(order, elf, elves, i);
        Offset(elf, order[i].delta)
  }

  lemma FirstIsUnique(order: seq<Movement>, elf: Point, elves: set<Point>, i: int)
    requires IsFirstClear(order, elf, elves, i)
    ensures forall k :: IsFirstClear(order, elf, elves, k) ==> k == i
  {
  }

  /** The elves that propose cell p (`counts[&p]`). */
  function Proposers(elves: set<Point>, order: seq<Movement>, p: Point): set<Point> {
    set e | e in elves && Proposal(e, elves, order) == p
  }

  /** Where an elf ends the round: its proposal if it was the only one to propose it. */
  function Final(elf: Point, elves: set<Point>, order: seq<Movement>): Point {
    var p := Proposal(elf, elves, order);
    if |Proposers(elves, order, p)| == 1 then p else elf
  }

  /** `perform_movement_round`. */
  function Round(elves: set<Point>, order: seq<Movement>): set<Point> {
    set e | e in elves :: Final(e, elves, order)
  }

  /** Every movement checks the cell it moves into, as the four puzzle movements do. */
  predicate ChecksTarget(order: seq<Movement>) {
    forall i :: 0 <= i < |order| ==> order[i].delta in order[i].checks
  }

  /** An elf that moves goes to a cell that was empty, and nobody else proposed it. */
  lemma MovesAreUncontested(elves: set<Point>, order: seq<Movement>, e: Point)
    requires ChecksTarget(order) && e in elves && Final(e, elves, order) != e
    ensures Final(e, elves, order) !in elves
    ensures Proposers(elves, order, Final(e, elves, order)) == {e}
  {
    var p := Proposal(e, elves, order);
    var i :| IsFirstClear(order, e, elves, i) && p == Offset(e, order[i].delta);
    assert order[i].delta in order[i].checks;
    var s := Proposers(elves, order, p);
    assert e in s;
    assert |s| == 1;
    OneElement(s, e);
  }

  lemma OneElement(s: set<Point>, e: Point)
    requires e in s && |s| == 1
    ensures s == {e}
  {
    assert s == (s - {e}) + {e};
    assert |s - {e}| == 0;
  }

  /** No two elves end a round in the same cell. */
  lemma NoCollisions(elves: set<Point>, order: seq<Movement>, e1: Point, e2: Point)
    requires ChecksTarget(order) && e1 in elves && e2 in elves && e1 != e2
    ensures Final(e1, elves, order) != Final(e2, elves, order)
  {
    var f1, f2 := Final(e1, elves, order), Final(e2, elves, order);
    if f1 != e1 {
      MovesAreUncontested(elves, order, e1);
      if f2 != e2 {
        MovesAreUncontested(elves, order, e2);
      }
    } else if f2 != e2 {
      MovesAreUncontested(elves, order, e2);
    }
  }

  /** An injective image of a set has as many elements as the set. */
  lemma {:induction false} InjectiveImage(s: set<Point>, f: Point -> Point)
    requires forall x, y :: x in s && y in s && x != y ==> f(x) != f(y)
    ensures |set x | x in s :: f(x)| == |s|
    decreases |s|
  {
    if s != {} {
      if forall y :: y !in s { assert false; }
      var x :| x in s;
      var rest := s - {x};
      InjectiveImage(rest, f);
      var image := set y | y in s :: f(y);
      var restImage := set y | y in rest :: f(y);
      assert image == restImage + {f(x)};
      assert f(x) !in restImage;
    } else {
      assert (set x | x in s :: f(x)) == {};
    }
  }

  /** A round never merges elves: there are as many elves after it as before. */
  lemma RoundKeepsElfCount(elves: set<Point>, order: seq<Movement>)
    requires ChecksTarget(order)
    ensures |Round(elves, order)| == |elves|
  {
    var f := (e: Point) => Final(e, elves, order);
    forall x, y | x in elves && y in elves && x != y ensures f(x) != f(y) {
      NoCollisions(elves, order, x, y);
    }
    InjectiveImage(elves, f);
    assert Round(elves, order) == set x | x in elves :: f(x);
  }

  /** When no two elves touch, nobody moves: the round the second part stops at. */
  lemma StillWhenNoneTouch(elves: set<Point>, order: seq<Movement>)
    requires !MovementRequired(elves)
    ensures Round(elves, order) == elves
  {
    forall e | e in elves ensures Final(e, elves, order) == e {
      assert !ShouldMove(e, elves);
    }
  }

  lemma FinalIsProposalOrStay(elves: set<Point>, order: seq<Movement>, e: Point)
    ensures Final(e, elves, order) == Proposal(e, elves, order) || Final(e, elves, order) == e
  {
  }

  /** Every elf ends the round where it was or on a neighbouring cell. */
  lemma MovesOneStep(elves: set<Point>, order: seq<Movement>, e: Point)
    requires forall i :: 0 <= i < |order| ==> Touching((0, 0), order[i].delta)
    requires e in elves
    ensures Final(e, elves, order) == e || Touching(e, Final(e, elves, order))
  {
    FinalIsProposalOrStay(elves, order, e);
    ProposalOneStep(elves, order, e);
  }

  lemma ProposalOneStep(elves: set<Point>, order: seq<Movement>, e: Point)
    requires forall i :: 0 <= i < |order| ==> Touching((0, 0), order[i].delta)
    ensures Proposal(e, elves, order) == e || Touching(e, Proposal(e, elves, order))
  {
    var p := Proposal(e, elves, order);
    if p != e {
      var i :| IsFirstClear(order, e, elves, i) && p == Offset(e, order[i].delta);
      var d := order[i].delta;
      assert Touching((0, 0), d);
      assert p.0 - e.0 == d.0 && p.1 - e.1 == d.1;
    }
  }

  /** The four movements of the puzzle in their starting order: north, south, west, east. */
  function Movements(): (r: seq<Movement>)
    ensures |r| == 4 && ChecksTarget(r)
    ensures forall i :: 0 <= i < |r| ==> Touching((0, 0), r[i].delta)
  {
    [ Movement((-1, 0), [(-1, -1), (-1, 0), (-1, 1)]),
      Movement((1, 0), [(1, -1), (1, 0), (1, 1)]),
      Movement((0, -1), [(-1, -1), (0, -1), (1, -1)]),
      Movement((0, 1), [(-1, 1), (0, 1), (1, 1)]) ]
  }

  /** After a round the first movement goes to the back of the order. */
  function Rotate(order: seq<Movement>): (r: seq<Movement>)
    requires |order| > 0
    ensures |r| == |order| && r[|r| - 1] == order[0]
    ensures forall i :: 0 <= i < |order| - 1 ==> r[i] == order[i + 1]
  {
    order[1..] + [order[0]]
  }

  /** Rotating keeps the same movements. */
  lemma RotateIsPermutation(order: seq<Movement>)
    requires |order| > 0
    ensures multiset(Rotate(order)) == multiset(order)
  {
    assert order == [order[0]] + order[1..];
  }

  /** Rotating k times. */
  function RotateTimes(order: seq<Movement>, k: nat): seq<Movement>
    requires |order| > 0
    decreases k
  {
    if k == 0 then order else RotateTimes(Rotate(order), k - 1)
  }

  /** Rotating k times moves the first k movements to the back, in order. */
  lemma {:induction false} RotateTimesSplits(order: seq<Movement>, k: nat)
    requires 0 < |order| && k <= |order|
    ensures RotateTimes(order, k) == order[k..] + order[..k]
    decreases k
  {
    if k > 0 {
      RotateTimesSplits(Rotate(order), k - 1);
      var r := Rotate(order);
      assert r[k - 1..] + r[..k - 1] == order[k..] + order[..k];
    }
  }

  /** So after as many rounds as there are movements the order is back where it started. */
  lemma RotationCycles(order: seq<Movement>)
    requires |order| > 0
    ensures RotateTimes(order, |order|) == order
  {
    RotateTimesSplits(order, |order|);
    assert order[|order|..] + order[..|order|] == order;
  }

  lemma RotateChecksTarget(order: seq<Movement>)
    requires |order| > 0 && ChecksTarget(order)
    ensures ChecksTarget(Rotate(order))
  {
    var r := Rotate(order);
    forall i | 0 <= i < |r| ensures r[i].delta in r[i].checks {
      if i < |order| - 1 {
        assert r[i] == order[i + 1];
      }
    }
  }

  /** A function playing one round, given the positions and the movement order. */
  type RoundFunction = (set<Point>, seq<Movement>) -> set<Point>

  /** The positions after n rounds of `step`, the order rotating after each. */
  function Play(step: RoundFunction, elves: set<Point>, order: seq<Movement>, n: nat): set<Point>
    requires |order| > 0
    decreases n
  {
    if n == 0 then elves else Play(step, step(elves, order), Rotate(order), n - 1)
  }

  /** The positions after n rounds (the first part's loop, with n = 10). */
  function Rounds(elves: set<Point>, order: seq<Movement>, n: nat): set<Point>
    requires |order| > 0
  {
    Play(Round, elves, order, n)
  }

  /** However many rounds are played, no elf is lost. */
  lemma {:induction false} RoundsKeepElfCount(elves: set<Point>, order: seq<Movement>, n: nat)
    requires |order| > 0 && ChecksTarget(order)
    ensures |Rounds(elves, order, n)| == |elves|
    decreases n
  {
    if n > 0 {
      RoundKeepsElfCount(elves, order);
      RotateChecksTarget(order);
      RoundsKeepElfCount(Round(elves, order), Rotate(order), n - 1);
    }
  }

  /**
   * The second part's loop for any round function, with `fuel` bounding the rounds
   * tried: the number of the first round in which nobody needs to move, counting from
   * `round`, if it comes within `fuel` rounds.
   */
  function FirstStill(step: RoundFunction, elves: set<Point>, order: seq<Movement>, round: nat, fuel: nat): (r: Option<nat>)
    requires |order| > 0
    ensures r.Some? ==> round <= r.value <= round + fuel
    ensures r.None? ==> MovementRequired(elves)
    decreases fuel
  {
    if !MovementRequired(elves) then Some(round)
    else if fuel == 0 then None
    else FirstStill(step, step(elves, order), Rotate(order), round + 1, fuel - 1)
  }

  /** `FirstStill` for the puzzle's round, counting rounds from 1 as the source does. */
  function FirstStillRound(elves: set<Point>, order: seq<Movement>, fuel: nat): Option<nat>
    requires |order| > 0
  {
    FirstStill(Round, elves, order, 1, fuel)
  }

  /** The round `FirstStill` reports is one in which no elf needs to move... */
  lemma {:induction false} FirstStillIsStill(step: RoundFunction, elves: set<Point>, order: seq<Movement>, round: nat, fuel: nat)
    requires |order| > 0 && FirstStill(step, elves, order, round, fuel).Some?
    ensures !MovementRequired(Play(step, elves, order, FirstStill(step, elves, order, round, fuel).value - round))
    decreases fuel
  {
    if MovementRequired(elves) {
      FirstStillIsStill(step, step(elves, order), Rotate(order), round + 1, fuel - 1);
    }
  }

  /** ... and in every round before it some elf did. */
  lemma {:induction false} FirstStillIsFirst(step: RoundFunction, elves: set<Point>, order: seq<Movement>, round: nat, fuel: nat, k: nat)
    requires |order| > 0 && FirstStill(step, elves, order, round, fuel).Some?
    requires k < FirstStill(step, elves, order, round, fuel).value - round
    ensures MovementRequired(Play(step, elves, order, k))
    decreases fuel
  {
    if k > 0 {
      FirstStillIsFirst(step, step(elves, order), Rotate(order), round + 1, fuel - 1, k - 1);
    }
  }

  /** When `FirstStill` runs out of fuel, some elf needed to move after every round tried. */
  lemma {:induction false} FuelRunsOut(step: RoundFunction, elves: set<Point>, order: seq<Movement>, round: nat, fuel: nat, k: nat)
    requires |order| > 0 && FirstStill(step, elves, order, round, fuel).None? && k <= fuel
    ensures MovementRequired(Play(step, elves, order, k))
    decreases fuel
  {
    if k > 0 {
      FuelRunsOut(step, step(elves, order), Rotate(order), round + 1, fuel - 1, k - 1);
    }
  }

  /**
   * For the puzzle's round: `FirstStillRound` reports the first round, counted from 1,
   * in which no two elves touch; with no report, elves still touch after every round tried.
   */
  lemma FirstStillRoundIsFirst(elves: set<Point>, order: seq<Movement>, fuel: nat)
    requires |order| > 0
    ensures FirstStillRound(elves, order, fuel).Some? ==>
      !MovementRequired(Rounds(elves, order, FirstStillRound(elves, order, fuel).value - 1)) &&
      forall k :: 0 <= k < FirstStillRound(elves, order, fuel).value - 1 ==> MovementRequired(Rounds(elves, order, k))
    ensures FirstStillRound(elves, order, fuel).None? ==>
      forall k :: 0 <= k <= fuel ==> MovementRequired(Rounds(elves, order, k))
  {
    var r := FirstStill(Round, elves, order, 1, fuel);
    if r.Some? {
      FirstStillIsStill(Round, elves, order, 1, fuel);
      forall k | 0 <= k < r.value - 1 ensures MovementRequired(Rounds(elves, order, k)) {
        FirstStillIsFirst(Round, elves, order, 1, fuel, k);
      }
    } else {
      forall k | 0 <= k <= fuel ensures MovementRequired(Rounds(elves, order, k)) {
        FuelRunsOut(Round, elves, order, 1, fuel, k);
      }
    }
  }

  /** The elves' rows. */
  function Rows(elves: set<Point>): set<int> {
    set e | e in elves :: e.0
  }

  function Columns(elves: set<Point>): set<int> {
    set e | e in elves :: e.1
  }

  /** The cells of the rectangle with corners (x0, y0) and (x1, y1). */
  function Rectangle(x0: int, x1: int, y0: int, y1: int): set<Point> {
    set x, y | x0 <= x <= x1 && y0 <= y <= y1 :: (x, y)
  }

  lemma ProjectionsNonEmpty(elves: set<Point>)
    requires elves != {}
    ensures Rows(elves) != {} && Columns(elves) != {}
  {
    if forall e :: e !in elves { assert false; }
    var e :| e in elves;
    assert e.0 in Rows(elves) && e.1 in Columns(elves);
  }

  /**
   * `find_bounding_box_area`: the area of the smallest rectangle holding every elf, or
   * None for no elves, where the source's `unwrap` of an empty minimum panics.
   */
  function BoundingBoxArea(elves: set<Point>): (r: Option<nat>)
    ensures r.None? <==> elves == {}
    ensures r.Some? ==> exists x0, x1, y0, y1 ::
              (r.value == (x1 - x0 + 1) * (y1 - y0 + 1) && x0 <= x1 && y0 <= y1 &&
               (forall e :: e in elves ==> e in Rectangle(x0, x1, y0, y1)) &&
               (exists e :: e in elves && e.0 == x0) && (exists e :: e in elves && e.0 == x1) &&
               (exists e :: e in elves && e.1 == y0) && (exists e :: e in elves && e.1 == y1))
  {
    if elves == {} then None
    else
      ProjectionsNonEmpty(elves);
      var minX, maxX := SetMin(Rows(elves)), SetMax(Rows(elves));
      var minY, maxY := SetMin(Columns(elves)), SetMax(Columns(elves));
      BoxHoldsElves(elves, minX, maxX, minY, maxY);
      MulAtLeast(maxX - minX + 1, maxY - minY + 1);
      Some((maxX - minX + 1) * (maxY - minY + 1))
  }

  lemma BoxHoldsElves(elves: set<Point>, minX: int, maxX: int, minY: int, maxY: int)
    requires Rows(elves) != {} && Columns(elves) != {}
    requires minX == SetMin(Rows(elves)) && maxX == SetMax(Rows(elves))
    requires minY == SetMin(Columns(elves)) && maxY == SetMax(Columns(elves))
    ensures minX <= maxX && minY <= maxY
    ensures forall e :: e in elves ==> e in Rectangle(minX, maxX, minY, maxY)
    ensures (exists e :: e in elves && e.0 == minX) && (exists e :: e in elves && e.0 == maxX)
    ensures (exists e :: e in elves && e.1 == minY) && (exists e :: e in elves && e.1 == maxY)
  {
    forall e | e in elves ensures e in Rectangle(minX, maxX, minY, maxY) {
      assert e.0 in Rows(elves) && e.1 in Columns(elves);
    }
  }

  /** A column of the rectangle has one cell per row. */
  lemma {:induction false} ColumnCard(x: int, y0: int, y1: int)
    requires y0 <= y1 + 1
    ensures |Rectangle(x, x, y0, y1)| == y1 - y0 + 1
    decreases y1 - y0
  {
    if y0 <= y1 {
      ColumnCard(x, y0, y1 - 1);
      assert Rectangle(x, x, y0, y1) == Rectangle(x, x, y0, y1 - 1) + {(x, y1)};
      assert (x, y1) !in Rectangle(x, x, y0, y1 - 1);
    } else {
      assert Rectangle(x, x, y0, y1) == {};
    }
  }

  /** A rectangle has width times height cells. */
  lemma {:induction false} RectangleCard(x0: int, x1: int, y0: int, y1: int)
    requires x0 <= x1 + 1 && y0 <= y1 + 1
    ensures |Rectangle(x0, x1, y0, y1)| == (x1 - x0 + 1) * (y1 - y0 + 1)
    decreases x1 - x0
  {
    if x0 <= x1 {
      RectangleCard(x0, x1 - 1, y0, y1);
      ColumnCard(x1, y0, y1);
      RectangleSplit(x0, x1, y0, y1);
      var h := y1 - y0 + 1;
      assert (x1 - x0 + 1) * h == (x1 - 1 - x0 + 1) * h + h;
    } else {
      assert Rectangle(x0, x1, y0, y1) == {};
    }
  }

  /** A rectangle is the rectangle one column narrower plus its last column. */
  lemma RectangleSplit(x0: int, x1: int, y0: int, y1: int)
    requires x0 <= x1
    ensures |Rectangle(x0, x1, y0, y1)| == |Rectangle(x0, x1 - 1, y0, y1)| + |Rectangle(x1, x1, y0, y1)|
  {
    var left, column := Rectangle(x0, x1 - 1, y0, y1), Rectangle(x1, x1, y0, y1);
    assert Rectangle(x0, x1, y0, y1) == left + column;
    assert left * column == {};
  }

  lemma SubsetCard(a: set<Point>, b: set<Point>)
    requires a <= b
    ensures |a| <= |b|
  {
    assert b == a + (b - a);
  }

  /** The bounding box holds every elf, so its area is at least the number of elves. */
  lemma AreaCoversElves(elves: set<Point>)
    requires elves != {}
    ensures BoundingBoxArea(elves).Some? && BoundingBoxArea(elves).value >= |elves|
  {
    ProjectionsNonEmpty(elves);
    var minX, maxX := SetMin(Rows(elves)), SetMax(Rows(elves));
    var minY, maxY := SetMin(Columns(elves)), SetMax(Columns(elves));
    BoxHoldsElves(elves, minX, maxX, minY, maxY);
    RectangleCard(minX, maxX, minY, maxY);
    SubsetCard(elves, Rectangle(minX, maxX, minY, maxY));
  }

  /**
   * The first part's answer: the empty cells of the bounding box, which never underflows;
   * None for no elves, where the bounding box panics.
   */
  function EmptyGround(elves: set<Point>): (r: Option<nat>)
    ensures r.None? <==> elves == {}
    ensures r.Some? ==> r.value + |elves| == BoundingBoxArea(elves).value
  {
    if elves == {} then None
    else
      AreaCoversElves(elves);
      Some(BoundingBoxArea(elves).value - |elves|)
  }
}
