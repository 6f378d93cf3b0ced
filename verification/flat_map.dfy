/**
 * The flat wraparound walker of day 22 (part 1).
 *
 * The map is a ragged grid of rows. Walking off the net continues from the opposite
 * side of the same row or column: the walker keeps stepping, wrapping around the grid,
 * until it meets a cell that is part of the net. Cells past the end of a short row
 * count as empty space.
 */
module FlatMap {

  import opened Common
  import opened Terrain
  import opened FlatDirections

  datatype FlatPosition = FlatPosition(x: nat, y: nat, direction: FlatDirection)

  /** Reading a cell of an existing row; columns past the end of the row are Void. */
  function MaterialAt(m: Grid, x: nat, y: nat): Material
    requires x < |m|
  {
    if y < |m[x]| then m[x][y] else Void
  }

  /** A cell that is part of the net. */
  predicate OnNet(m: Grid, x: nat, y: nat) {
    x < |m| && y < |m[x]| && m[x][y] != Void
  }

  predicate Valid(m: Grid, p: FlatPosition) {
    OnNet(m, p.x, p.y)
  }

  predicate Horizontal(d: FlatDirection) {
    d.Left? || d.Right?
  }

  /** How many steps in direction `d` bring a walker back to where it started. */
  function Period(m: Grid, x: nat, d: FlatDirection): nat
    requires x < |m|
  {
    if Horizontal(d) then |m[x]| else |m|
  }

  /** Reduction of `v` into `[0, n)` for a value at most one period out of range. */
  function Wrap(v: int, n: nat): (r: nat)
    requires -(n as int) <= v < 2 * n
    ensures r < n && (r - v) % n == 0
  {
    if v < 0 then v + n else if v >= n then v - n else v
  }

  /**
   * The cell in front of (x, y): one row up or down modulo the number of rows, or one
   * column left or right modulo the length of the current row.
   */
  function CoordinatesInFront(m: Grid, x: nat, y: nat, d: FlatDirection): (r: (nat, nat))
    requires x < |m|
    requires Horizontal(d) ==> |m[x]| > 0
    ensures r.0 < |m|
    ensures Horizontal(d) ==> r.0 == x && r.1 < |m[x]|
    ensures Horizontal(d) && y < |m[x]| ==> r.1 == Wrap(y + Delta(d).1, |m[x]|)
    ensures !Horizontal(d) ==> r == (Wrap(x + Delta(d).0, |m|), y)
  {
    match d
    case Up => ModOnce(x + |m| - 1, |m|); ((x + |m| - 1) % |m|, y)
    case Down => ModOnce(x + 1, |m|); ((x + 1) % |m|, y)
    case Left => ModOnce(y + |m[x]| - 1, |m[x]|); (x, (y + |m[x]| - 1) % |m[x]|)
    case Right => ModOnce(y + 1, |m[x]|); (x, (y + 1) % |m[x]|)
  }


  /** The cell reached by applying `CoordinatesInFront` k times. */
  function Ahead(m: Grid, x: nat, y: nat, d: FlatDirection, k: nat): (r: (nat, nat))
    requires x < |m|
    requires Horizontal(d) ==> |m[x]| > 0
    ensures r.0 < |m|
    ensures Horizontal(d) ==> r.0 == x
  {
    if k == 0 then (x, y)
    else
      var prev := Ahead(m, x, y, d, k - 1);
      CoordinatesInFront(m, prev.0, prev.1, d)
  }

  /** Moving k cells along a row or column of length n, with wrap-around. */
  function Offset(m: Grid, x: nat, y: nat, d: FlatDirection, k: nat): (r: (nat, nat))
    requires x < |m| && y < |m[x]|
    requires k <= Period(m, x, d)
  {
    if Horizontal(d) then (x, Wrap(y + k * Delta(d).1, |m[x]|))
    else (Wrap(x + k * Delta(d).0, |m|), y)
  }

  /** Repeated stepping is movement by k with wrap-around, for up to one full period. */
  lemma {:induction false} AheadIsOffset(m: Grid, x: nat, y: nat, d: FlatDirection, k: nat)
    requires x < |m| && y < |m[x]|
    requires k <= Period(m, x, d)
    ensures Ahead(m, x, y, d, k) == Offset(m, x, y, d, k)
  {
    if k > 0 {
      AheadIsOffset(m, x, y, d, k - 1);
      match d
      case Up => {} case Down => {} case Left => {} case Right => {}
    }
  }

  /** One full period of steps returns to the starting cell. */
  lemma AheadFullPeriod(m: Grid, x: nat, y: nat, d: FlatDirection)
    requires x < |m| && y < |m[x]|
    ensures Ahead(m, x, y, d, Period(m, x, d)) == (x, y)
  {
    AheadIsOffset(m, x, y, d, Period(m, x, d));
  }

  function MaterialAhead(m: Grid, p: FlatPosition, k: nat): Material
    requires Valid(m, p)
  {
    var c := Ahead(m, p.x, p.y, p.direction, k);
    MaterialAt(m, c.0, c.1)
  }

  /**
   * The number of steps from `p` to the first cell of the net in front of it, searching
   * from step k on. The search always succeeds within one period, because after a full
   * period the walker is back on its own cell.
   */
  function StepsToNextSpace(m: Grid, p: FlatPosition, k: nat): (j: nat)
    requires Valid(m, p)
    requires 1 <= k <= Period(m, p.x, p.direction)
    ensures k <= j <= Period(m, p.x, p.direction)
    ensures MaterialAhead(m, p, j) != Void
    ensures forall i :: k <= i < j ==> MaterialAhead(m, p, i) == Void
    decreases Period(m, p.x, p.direction) - k
  {
    if MaterialAhead(m, p, k) != Void then k
    else if k == Period(m, p.x, p.direction) then
      AheadFullPeriod(m, p.x, p.y, p.direction);
      assert false;
      k
    else StepsToNextSpace(m, p, k + 1)
  }

  /** The cell the walker would move to: the first cell of the net in front of it. */
  function NextSpaceWrapping(m: Grid, p: FlatPosition): (c: (nat, nat))
    requires Valid(m, p)
    ensures OnNet(m, c.0, c.1)
    ensures Horizontal(p.direction) ==> c.0 == p.x
    ensures !Horizontal(p.direction) ==> c.1 == p.y
  {
    var k := StepsToNextSpace(m, p, 1);
    AheadIsOffset(m, p.x, p.y, p.direction, k);
    Ahead(m, p.x, p.y, p.direction, k)
  }

  /** The next space is the first non-Void cell reached by stepping forward. */
  lemma NextSpaceIsFirstSolid(m: Grid, p: FlatPosition)
    requires Valid(m, p)
    ensures exists k :: (1 <= k <= Period(m, p.x, p.direction) &&
                         Ahead(m, p.x, p.y, p.direction, k) == NextSpaceWrapping(m, p) &&
                         forall i :: 1 <= i < k ==> MaterialAhead(m, p, i) == Void)
  {
    var k := StepsToNextSpace(m, p, 1);
    assert Ahead(m, p.x, p.y, p.direction, k) == NextSpaceWrapping(m, p);
  }

  /** One step: move onto the next space if it is Open, otherwise stay put. */
  function TryStepForward(m: Grid, p: FlatPosition): (r: (bool, FlatPosition))
    requires Valid(m, p)
    ensures Valid(m, r.1) && r.1.direction == p.direction
    ensures r.0 ==> m[r.1.x][r.1.y] == Open
    ensures r.0 <==> m[NextSpaceWrapping(m, p).0][NextSpaceWrapping(m, p).1] == Open
    ensures !r.0 ==> r.1 == p
  {
    var c := NextSpaceWrapping(m, p);
    if m[c.0][c.1] == Open then (true, p.(x := c.0, y := c.1)) else (false, p)
  }

  /** The position after k successful steps, or None if one of them is blocked. */
  function Walk(m: Grid, p: FlatPosition, k: nat): Option<FlatPosition>
    requires Valid(m, p)
    decreases k
  {
    if k == 0 then Some(p)
    else
      var r := TryStepForward(m, p);
      if r.0 then Walk(m, r.1, k - 1) else None
  }

  lemma {:induction false} WalkExtend(m: Grid, p: FlatPosition, k: nat, q: FlatPosition)
    requires Valid(m, p) && Valid(m, q)
    requires Walk(m, p, k) == Some(q)
    requires TryStepForward(m, q).0
    ensures Walk(m, p, k + 1) == Some(TryStepForward(m, q).1)
    decreases k
  {
    if k > 0 {
      WalkExtend(m, TryStepForward(m, p).1, k - 1, q);
    }
  }

  lemma {:induction false} WalkKeepsDirection(m: Grid, p: FlatPosition, k: nat)
    requires Valid(m, p)
    ensures Walk(m, p, k).Some? ==> Valid(m, Walk(m, p, k).value)
    ensures Walk(m, p, k).Some? ==> Walk(m, p, k).value.direction == p.direction
    ensures k > 0 && Walk(m, p, k).Some? ==> Walk(m, p, k).value.x < |m|
    decreases k
  {
    if k > 0 && TryStepForward(m, p).0 {
      WalkKeepsDirection(m, TryStepForward(m, p).1, k - 1);
    }
  }

  /**
   * Forward(amount): at most `amount` successful steps, stopping at the first one that is
   * blocked by a wall; each step lands on an Open cell.
   */
  method MoveForward(m: Grid, p: FlatPosition, amount: nat) returns (q: FlatPosition, taken: nat)
    requires Valid(m, p)
    ensures taken <= amount
    ensures Valid(m, q) && q.direction == p.direction
    ensures Walk(m, p, taken) == Some(q)
    ensures taken > 0 ==> m[q.x][q.y] == Open
    ensures taken < amount ==> !TryStepForward(m, q).0
  {
    q, taken := p, 0;
    while taken < amount
      invariant taken <= amount
      invariant Valid(m, q) && q.direction == p.direction
      invariant Walk(m, p, taken) == Some(q)
      invariant taken > 0 ==> m[q.x][q.y] == Open
    {
      var step := TryStepForward(m, q);
      if !step.0 {
        return;
      }
      WalkExtend(m, p, taken, q);
      q, taken := step.1, taken + 1;
    }
  }

  method ApplyMovement(m: Grid, p: FlatPosition, mv: Movement) returns (q: FlatPosition)
    requires Valid(m, p)
    ensures Valid(m, q)
    ensures mv.TurnRight? ==> q == p.(direction := RotateRight(p.direction))
    ensures mv.TurnLeft? ==> q == p.(direction := RotateLeft(p.direction))
    ensures mv.Forward? ==> q.direction == p.direction
    ensures mv.Forward? ==> exists k :: 0 <= k <= mv.amount && Walk(m, p, k) == Some(q) &&
                                        (k < mv.amount ==> !TryStepForward(m, q).0)
  {
    match mv
    case TurnRight => q := p.(direction := RotateRight(p.direction));
    case TurnLeft => q := p.(direction := RotateLeft(p.direction));
    case Forward(amount) =>
      var taken;
      q, taken := MoveForward(m, p, amount);
  }

  /**
   * The walker starts facing Right on the first cell of the net in the top row; a map with
   * no rows, or whose top row is all Void, has no starting cell.
   */
  function Start(m: Grid): (r: Option<FlatPosition>)
    ensures r.Some? ==> Valid(m, r.value) && r.value.x == 0 && r.value.direction == Right
    ensures r.Some? ==> forall y :: 0 <= y < r.value.y ==> m[0][y] == Void
    ensures r.None? <==> |m| == 0 || forall y :: 0 <= y < |m[0]| ==> m[0][y] == Void
  {
    if |m| == 0 then None
    else match FirstSolid(m[0])
      case None => None
      case Some(y) => Some(FlatPosition(0, y, Right))
  }
}
