/**
 * The rope bridge (day 9). The head knot moves one unit step at a time and every later
 * knot is dragged toward the knot before it, which has already moved: a knot still
 * touching its leader stays put, any other moves one place diagonally or straight
 * toward it.
 */
module Rope {

  import opened Common
  import opened Parsing

  /** (row, column); rows grow downwards. */
  type Coordinate = (int, int)

  /** A unit step and the number of times to take it. */
  type Movement = (Coordinate, nat)

  function Signum(v: int): int {
    if v < 0 then -1 else if v > 0 then 1 else 0
  }

  /** Chebyshev distance: the number of king moves between two cells. */
  function Distance(a: Coordinate, b: Coordinate): nat {
    var dr, dc := Abs(a.0 - b.0), Abs(a.1 - b.1);
    if dr < dc then dc else dr
  }

  predicate Touching(a: Coordinate, b: Coordinate) {
    Distance(a, b) <= 1
  }

  /** `R`, `L`, `D`, `U` and an amount, separated by one space; anything else is rejected. */
  function ParseMovement(line: string): (r: Option<Movement>)
    ensures r.Some? ==> |Split(line, ' ')| == 2 && ParseNat(Split(line, ' ')[1]) == Some(r.value.1)
    ensures r.Some? ==> Split(line, ' ')[0] in {"R", "L", "D", "U"}
    ensures r.Some? && Split(line, ' ')[0] == "R" ==> r.value.0 == (0, 1)
    ensures r.Some? && Split(line, ' ')[0] == "L" ==> r.value.0 == (0, -1)
    ensures r.Some? && Split(line, ' ')[0] == "D" ==> r.value.0 == (1, 0)
    ensures r.Some? && Split(line, ' ')[0] == "U" ==> r.value.0 == (-1, 0)
    ensures r.Some? ==> Touching(r.value.0, (0, 0)) && r.value.0 != (0, 0)
    ensures (|Split(line, ' ')| == 2 && Split(line, ' ')[0] in {"R", "L", "D", "U"}
             && ParseNat(Split(line, ' ')[1]).Some?) ==> r.Some?
  {
    var parts := Split(line, ' ');
    if |parts| != 2 then None
    else match ParseNat(parts[1])
      case None => None
      case Some(amount) =>
        if parts[0] == "R" then Some(((0, 1), amount))
        else if parts[0] == "L" then Some(((0, -1), amount))
        else if parts[0] == "D" then Some(((1, 0), amount))
        else if parts[0] == "U" then Some(((-1, 0), amount))
        else None
  }

  /** The follower's new place after its leader has moved. */
  function DragPosition(leader: Coordinate, follower: Coordinate): (r: Coordinate)
    ensures Touching(leader, follower) ==> r == follower
    ensures !Touching(leader, follower) ==>
              r == (follower.0 + Signum(leader.0 - follower.0), follower.1 + Signum(leader.1 - follower.1))
    ensures Touching(r, follower)
    ensures Distance(leader, follower) <= 2 ==> Touching(leader, r)
  {
    var delta := (leader.0 - follower.0, leader.1 - follower.1);
    if -1 <= delta.0 <= 1 && -1 <= delta.1 <= 1 then follower
    else (follower.0 + Signum(delta.0), follower.1 + Signum(delta.1))
  }

  /** Drags each knot of `rest` in turn toward the already moved knot before it. */
  function DragAll(leader: Coordinate, rest: seq<Coordinate>): (r: seq<Coordinate>)
    ensures |r| == |rest|
    ensures |rest| > 0 ==> r[0] == DragPosition(leader, rest[0])
    ensures forall i :: 1 <= i < |rest| ==> r[i] == DragPosition(r[i - 1], rest[i])
    decreases |rest|
  {
    if |rest| == 0 then []
    else
      var first := DragPosition(leader, rest[0]);
      [first] + DragAll(first, rest[1..])
  }

  /** Moves the head by `step` and drags every later knot; the rope must have a head. */
  function ApplyMovement(knots: seq<Coordinate>, step: Coordinate): (r: seq<Coordinate>)
    requires |knots| >= 1
    ensures |r| == |knots|
    ensures r[0] == (knots[0].0 + step.0, knots[0].1 + step.1)
    ensures forall i :: 1 <= i < |knots| ==> r[i] == DragPosition(r[i - 1], knots[i])
  {
    var head := (knots[0].0 + step.0, knots[0].1 + step.1);
    [head] + DragAll(head, knots[1..])
  }

  /** Every knot touches the one before it. */
  predicate Taut(knots: seq<Coordinate>) {
    forall i :: 1 <= i < |knots| ==> Touching(knots[i - 1], knots[i])
  }

  /** A king move: at most one place along each axis. */
  predicate KingStep(from: Coordinate, to: Coordinate) {
    Touching(from, to)
  }

  /**
   * The rope stays taut: if every knot touches its predecessor and the head makes a
   * king move (any unit step included), then afterwards every knot still touches its
   * predecessor, and every knot has itself made a king move.
   */
  lemma {:induction false} ApplyMovementKeepsTaut(knots: seq<Coordinate>, step: Coordinate)
    requires |knots| >= 1 && Taut(knots) && Touching(step, (0, 0))
    ensures Taut(ApplyMovement(knots, step))
    ensures forall i :: 0 <= i < |knots| ==> KingStep(knots[i], ApplyMovement(knots, step)[i])
  {
    var r := ApplyMovement(knots, step);
    var i := 1;
    while i < |knots|
      invariant 1 <= i <= |knots|
      invariant forall j :: 0 <= j < i ==> KingStep(knots[j], r[j])
      invariant forall j :: 1 <= j < i ==> Touching(r[j - 1], r[j])
    {
      DragAfterKingStep(knots[i - 1], r[i - 1], knots[i]);
      i := i + 1;
    }
  }

  /**
   * A follower touching its leader, dragged after the leader made a king move, has made
   * a king move itself and touches the leader again.
   */
  lemma DragAfterKingStep(leader: Coordinate, moved: Coordinate, follower: Coordinate)
    requires KingStep(leader, moved) && Touching(leader, follower)
    ensures KingStep(follower, DragPosition(moved, follower))
    ensures Touching(moved, DragPosition(moved, follower))
  {
    assert Distance(moved, follower) <= 2;
  }

  /** The unit steps of the movements, each repeated as often as its amount says. */
  function Steps(movements: seq<Movement>): (r: seq<Coordinate>)
    ensures |r| == TotalAmount(movements)
  {
    if |movements| == 0 then []
    else seq(movements[0].1, _ => movements[0].0) + Steps(movements[1..])
  }

  function TotalAmount(movements: seq<Movement>): nat {
    if |movements| == 0 then 0 else movements[0].1 + TotalAmount(movements[1..])
  }

  /** The rope after each of the steps, in turn. */
  function Ropes(knots: seq<Coordinate>, steps: seq<Coordinate>): (r: seq<seq<Coordinate>>)
    requires |knots| >= 1
    ensures |r| == |steps|
    ensures forall i :: 0 <= i < |r| ==> |r[i]| == |knots|
    ensures |steps| > 0 ==> r[0] == ApplyMovement(knots, steps[0])
    ensures forall i :: 1 <= i < |r| ==> r[i] == ApplyMovement(r[i - 1], steps[i])
    decreases |steps|
  {
    if |steps| == 0 then []
    else
      var first := ApplyMovement(knots, steps[0]);
      [first] + Ropes(first, steps[1..])
  }

  /**
   * The position of the last knot after every unit step: exactly one position per step.
   * A rope without knots has no tail, which the source only reaches with no steps.
   */
  function TailPositions(knots: seq<Coordinate>, movements: seq<Movement>): (r: seq<Coordinate>)
    requires |knots| >= 1 || TotalAmount(movements) == 0
    ensures |r| == TotalAmount(movements)
    ensures |knots| >= 1 ==> forall i :: 0 <= i < |r| ==> r[i] == Ropes(knots, Steps(movements))[i][|knots| - 1]
  {
    var steps := Steps(movements);
    if |steps| == 0 then []
    else
      var ropes := Ropes(knots, steps);
      seq(|ropes|, i requires 0 <= i < |ropes| => ropes[i][|knots| - 1])
  }

  /** Parsed movements are unit steps, so a rope that starts taut stays taut at every step. */
  lemma {:induction false} RopesStayTaut(knots: seq<Coordinate>, steps: seq<Coordinate>)
    requires |knots| >= 1 && Taut(knots)
    requires forall i :: 0 <= i < |steps| ==> Touching(steps[i], (0, 0))
    ensures forall i :: 0 <= i < |steps| ==> Taut(Ropes(knots, steps)[i])
    decreases |steps|
  {
    if |steps| > 0 {
      ApplyMovementKeepsTaut(knots, steps[0]);
      var first := ApplyMovement(knots, steps[0]);
      RopesStayTaut(first, steps[1..]);
    }
  }
}
