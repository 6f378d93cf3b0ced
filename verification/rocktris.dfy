/**
 * Pyroclastic flow (day 17): rocks of five shapes fall into a chamber `width` columns
 * wide, pushed sideways by jets and settling on the floor or on earlier rocks. Columns
 * are numbered 1..width with walls at 0 and width + 1; each column keeps the set of its
 * occupied heights, starting with the floor at height 0.
 */
module Rocktris {

  import opened Common

  datatype Movement = Left | Right | Down

  /** `Movement::from_char`: a jet character; anything else is an error. */
  function MovementFromChar(c: char): (r: Option<Movement>)
    ensures r == Some(Left) <==> c == '<'
    ensures r == Some(Right) <==> c == '>'
    ensures r != Some(Down)
  {
    match c
    case '<' => Some(Left)
    case '>' => Some(Right)
    case _ => None
  }

  /** Every character is a jet. */
  predicate AllJets(input: string) {
    forall i :: 0 <= i < |input| ==> input[i] in {'<', '>'}
  }

  /** `collect_movements`: the jets, each followed by one step down; another character is an error. */
  function CollectMovements(input: string): (r: Option<seq<Movement>>)
    ensures r.Some? <==> forall i :: 0 <= i < |input| ==> MovementFromChar(input[i]).Some?
    ensures r.Some? ==> |r.value| == 2 * |input|
    ensures r.Some? ==> forall i :: 0 <= i < |input| ==>
              Some(r.value[2 * i]) == MovementFromChar(input[i]) && r.value[2 * i + 1] == Down
  {
    if !AllJets(input) then None
    else Some(WithDownSteps(seq(|input|, i requires 0 <= i < |input| => MovementFromChar(input[i]).value)))
  }

  /** `interleave_shortest` with an endless run of downward steps. */
  function WithDownSteps(jets: seq<Movement>): (r: seq<Movement>)
    ensures |r| == 2 * |jets|
    ensures forall i :: 0 <= i < |jets| ==> r[2 * i] == jets[i] && r[2 * i + 1] == Down
  {
    if |jets| == 0 then []
    else
      var rest := WithDownSteps(jets[1..]);
      var r := [jets[0], Down] + rest;
      forall i | 1 <= i < |jets|
        ensures r[2 * i] == jets[i] && r[2 * i + 1] == Down
      {
        var j := i - 1;
        assert r[2 * i] == rest[2 * j] && r[2 * i + 1] == rest[2 * j + 1];
        assert jets[i] == jets[1..][j];
      }
      r
  }

  datatype RockShape = Horizontal | Plus | Vee | Vertical | Square

  /** `next_shape`: the order in which the shapes fall. */
  function NextShape(s: RockShape): RockShape {
    match s
    case Horizontal => Plus
    case Plus => Vee
    case Vee => Vertical
    case Vertical => Square
    case Square => Horizontal
  }

  /** The shape k rocks after `s`. */
  function ShapeAfter(s: RockShape, k: nat): RockShape {
    if k == 0 then s else NextShape(ShapeAfter(s, k - 1))
  }

  /** The shapes form one cycle of length five: every shape comes once before `s` returns. */
  lemma NextShapeCycles(s: RockShape)
    ensures ShapeAfter(s, 5) == s
    ensures forall k :: 1 <= k < 5 ==> ShapeAfter(s, k) != s
    ensures {ShapeAfter(s, 0), ShapeAfter(s, 1), ShapeAfter(s, 2), ShapeAfter(s, 3), ShapeAfter(s, 4)}
            == {Horizontal, Plus, Vee, Vertical, Square}
  {
    assert ShapeAfter(s, 5) == NextShape(ShapeAfter(s, 4));
  }

  type Cell = (nat, nat)

  datatype Rock = Rock(shape: RockShape, positions: seq<Cell>)

  /** The width and height of a shape's bounding box. */
  function ShapeWidth(s: RockShape): nat {
    match s
    case Horizontal => 4
    case Plus => 3
    case Vee => 3
    case Vertical => 1
    case Square => 2
  }

  function ShapeHeight(s: RockShape): nat {
    match s
    case Horizontal => 1
    case Plus => 3
    case Vee => 3
    case Vertical => 4
    case Square => 2
  }

  /** The cells of each shape relative to the bottom-left corner of its bounding box. */
  function Offsets(shape: RockShape): seq<Cell> {
    match shape
    case Horizontal => [(0, 0), (1, 0), (2, 0), (3, 0)]
    case Plus => [(1, 0), (0, 1), (1, 1), (2, 1), (1, 2)]
    case Vee => [(0, 0), (1, 0), (2, 0), (2, 1), (2, 2)]
    case Vertical => [(0, 0), (0, 1), (0, 2), (0, 3)]
    case Square => [(0, 0), (1, 0), (0, 1), (1, 1)]
  }

  /** `Rock::new`: the cells of a shape whose bounding box has its bottom-left corner at `bottomLeft`. */
  function NewRock(shape: RockShape, bottomLeft: Cell): Rock {
    var offsets := Offsets(shape);
    Rock(shape, seq(|offsets|, i requires 0 <= i < |offsets| => (bottomLeft.0 + offsets[i].0, bottomLeft.1 + offsets[i].1)))
  }

  /**
   * A new rock has 4 or 5 distinct cells inside the shape's bounding box, and the box is
   * tight on all four sides.
   */
  lemma NewRockLayout(shape: RockShape, bottomLeft: Cell)
    ensures var r := NewRock(shape, bottomLeft);
            r.shape == shape
            && |r.positions| == (if shape in {Plus, Vee} then 5 else 4)
            && NoRepeats(r.positions)
    ensures var r := NewRock(shape, bottomLeft);
            forall i :: 0 <= i < |r.positions| ==>
              bottomLeft.0 <= r.positions[i].0 < bottomLeft.0 + ShapeWidth(shape)
              && bottomLeft.1 <= r.positions[i].1 < bottomLeft.1 + ShapeHeight(shape)
    ensures var r := NewRock(shape, bottomLeft);
            (exists i :: 0 <= i < |r.positions| && r.positions[i].0 == bottomLeft.0)
            && (exists i :: 0 <= i < |r.positions| && r.positions[i].1 == bottomLeft.1)
            && (exists i :: 0 <= i < |r.positions| && r.positions[i].0 + 1 == bottomLeft.0 + ShapeWidth(shape))
            && (exists i :: 0 <= i < |r.positions| && r.positions[i].1 + 1 == bottomLeft.1 + ShapeHeight(shape))
  {
    var (x, y) := bottomLeft;
    var offsets := Offsets(shape);
    var positions := NewRock(shape, bottomLeft).positions;
    var last := |positions| - 1;
    assert forall i :: 0 <= i < |positions| ==> positions[i] == (x + offsets[i].0, y + offsets[i].1);
    assert positions[0].1 == y;
    assert shape != Plus ==> positions[0].0 == x;
    assert shape == Plus ==> positions[1].0 == x;
    assert shape == Vee ==> positions[2].0 + 1 == x + ShapeWidth(shape);
    assert shape == Plus ==> positions[3].0 + 1 == x + ShapeWidth(shape);
    assert shape in {Horizontal, Vertical, Square} ==> positions[last].0 + 1 == x + ShapeWidth(shape);
    assert positions[last].1 + 1 == y + ShapeHeight(shape);
  }

  datatype Rocktris = Rocktris(width: nat, placedRocks: nat, movementsCompleted: nat,
                               occupied: seq<set<nat>>, fallingRock: Rock)

  /** The spawn point of a rock: column 3, four rows above the current height. */
  const SpawnColumn: nat := 3
  const SpawnGap: nat := 4

  /** A new rock of the given shape at the spawn point above the chamber's height. */
  function Spawn(shape: RockShape, occupied: seq<set<nat>>, width: nat): Rock
    requires Shaped(occupied, width)
  {
    NewRock(shape, (SpawnColumn, Height(occupied, width) + SpawnGap))
  }

  /** `Rocktris::new`: every column holds only the floor, and a horizontal rock waits at (3, 4). */
  function NewRocktris(width: nat): (r: Rocktris)
    ensures |r.occupied| == width + 1
    ensures forall c :: 0 <= c <= width ==> r.occupied[c] == {0}
    ensures r.placedRocks == 0 && r.movementsCompleted == 0 && r.width == width
    ensures r.fallingRock == NewRock(Horizontal, (SpawnColumn, SpawnGap))
  {
    Rocktris(width, 0, 0, seq(width + 1, _ => {0}), NewRock(Horizontal, (SpawnColumn, SpawnGap)))
  }

  /** Every column of the chamber has a set of heights, and none is empty. */
  predicate Shaped(occupied: seq<set<nat>>, width: nat) {
    width >= 1 && |occupied| == width + 1 && forall c :: 1 <= c <= width ==> occupied[c] != {}
  }

  /** `is_blocked`: a wall, or an occupied cell. */
  predicate IsBlocked(s: Rocktris, space: Cell)
    requires |s.occupied| == s.width + 1 && space.0 <= s.width + 1
  {
    space.0 == 0 || space.0 == s.width + 1 || space.1 in s.occupied[space.0]
  }

  /** No cell of a rock would be blocked. */
  predicate Fits(s: Rocktris, cells: seq<Cell>)
    requires |s.occupied| == s.width + 1
    requires forall i :: 0 <= i < |cells| ==> cells[i].0 <= s.width + 1
  {
    forall i :: 0 <= i < |cells| ==> !IsBlocked(s, cells[i])
  }

  /** A rock's cells moved one column right, one column left, or one row down. */
  function ShiftRight(cells: seq<Cell>): (r: seq<Cell>)
    ensures |r| == |cells| && forall i :: 0 <= i < |r| ==> r[i] == (cells[i].0 + 1, cells[i].1)
  {
    seq(|cells|, i requires 0 <= i < |cells| => (cells[i].0 + 1, cells[i].1))
  }

  function ShiftLeft(cells: seq<Cell>): (r: seq<Cell>)
    requires forall i :: 0 <= i < |cells| ==> cells[i].0 >= 1
    ensures |r| == |cells| && forall i :: 0 <= i < |r| ==> r[i].0 + 1 == cells[i].0 && r[i].1 == cells[i].1
  {
    seq(|cells|, i requires 0 <= i < |cells| => (cells[i].0 - 1, cells[i].1))
  }

  function ShiftDown(cells: seq<Cell>): (r: seq<Cell>)
    requires forall i :: 0 <= i < |cells| ==> cells[i].1 >= 1
    ensures |r| == |cells| && forall i :: 0 <= i < |r| ==> r[i].0 == cells[i].0 && r[i].1 + 1 == cells[i].1
  {
    seq(|cells|, i requires 0 <= i < |cells| => (cells[i].0, cells[i].1 - 1))
  }

  /** `move_right`: the whole rock moves one column right if no cell of it would be blocked. */
  function MoveRight(s: Rocktris): (r: Rocktris)
    requires |s.occupied| == s.width + 1
    requires forall i :: 0 <= i < |s.fallingRock.positions| ==> s.fallingRock.positions[i].0 <= s.width
    ensures r.fallingRock.positions == ShiftRight(s.fallingRock.positions) || r == s
    ensures r == s.(fallingRock := r.fallingRock) && r.fallingRock.shape == s.fallingRock.shape
    ensures r.fallingRock.positions == ShiftRight(s.fallingRock.positions) <==>
              forall i :: 0 <= i < |s.fallingRock.positions| ==>
                var (x, y) := s.fallingRock.positions[i];
                x + 1 <= s.width && y !in s.occupied[x + 1]
  {
    var moved := ShiftRight(s.fallingRock.positions);
    if Fits(s, moved) then s.(fallingRock := s.fallingRock.(positions := moved)) else s
  }

  /** `move_left`: the whole rock moves one column left if no cell of it would be blocked. */
  function MoveLeft(s: Rocktris): (r: Rocktris)
    requires |s.occupied| == s.width + 1
    requires forall i :: 0 <= i < |s.fallingRock.positions| ==> 1 <= s.fallingRock.positions[i].0 <= s.width + 2
    ensures r.fallingRock.positions == ShiftLeft(s.fallingRock.positions) || r == s
    ensures r == s.(fallingRock := r.fallingRock) && r.fallingRock.shape == s.fallingRock.shape
    ensures r.fallingRock.positions == ShiftLeft(s.fallingRock.positions) <==>
              forall i :: 0 <= i < |s.fallingRock.positions| ==>
                var (x, y) := s.fallingRock.positions[i];
                2 <= x <= s.width + 1 && y !in s.occupied[x - 1]
  {
    var moved := ShiftLeft(s.fallingRock.positions);
    if Fits(s, moved) then s.(fallingRock := s.fallingRock.(positions := moved)) else s
  }

  /** The highest occupied height over columns 1..c. */
  function HeightUpTo(occupied: seq<set<nat>>, c: nat): (h: nat)
    requires 1 <= c < |occupied| && forall c' :: 1 <= c' <= c ==> occupied[c'] != {}
    ensures forall c', v :: 1 <= c' <= c && v in occupied[c'] ==> v <= h
    ensures exists c' :: 1 <= c' <= c && h in occupied[c']
  {
    var top := SetMax(occupied[c]);
    if c == 1 then top
    else
      var below := HeightUpTo(occupied, c - 1);
      if below < top then top else below
  }

  /** `height`: the highest occupied cell of any column. */
  function Height(occupied: seq<set<nat>>, width: nat): (h: nat)
    requires Shaped(occupied, width)
    ensures forall c, v :: 1 <= c <= width && v in occupied[c] ==> v <= h
    ensures exists c :: 1 <= c <= width && h in occupied[c]
  {
    HeightUpTo(occupied, width)
  }

  /** Two chambers whose columns have the same highest cells have the same height. */
  lemma {:induction false} HeightDependsOnTops(a: seq<set<nat>>, b: seq<set<nat>>, c: nat)
    requires 1 <= c < |a| && |a| == |b|
    requires forall c' :: 1 <= c' <= c ==> a[c'] != {} && b[c'] != {} && SetMax(a[c']) == SetMax(b[c'])
    ensures HeightUpTo(a, c) == HeightUpTo(b, c)
    decreases c
  {
    if c > 1 {
      HeightDependsOnTops(a, b, c - 1);
    }
  }

  /** Every line in the chamber is filled from column 1 to `width`. */
  predicate Complete(occupied: seq<set<nat>>, width: nat, h: nat)
    requires |occupied| == width + 1
  {
    forall c :: 1 <= c <= width ==> h in occupied[c]
  }

  /** Every column keeps only its heights from `h` up (`split_off`); the wall column is untouched. */
  function DiscardBelow(occupied: seq<set<nat>>, h: nat): (r: seq<set<nat>>)
    requires |occupied| > 0
    ensures |r| == |occupied| && r[0] == occupied[0]
    ensures forall c, v :: 1 <= c < |r| ==> (v in r[c] <==> v in occupied[c] && v >= h)
  {
    seq(|occupied|, c requires 0 <= c < |occupied| => if c == 0 then occupied[0] else set v | v in occupied[c] && v >= h)
  }

  /** The index of the first of `heights` that is a complete line, or |heights| if none is. */
  function FirstCompleteLine(occupied: seq<set<nat>>, width: nat, heights: seq<nat>): (k: nat)
    requires |occupied| == width + 1
    ensures k <= |heights|
    ensures k < |heights| ==> Complete(occupied, width, heights[k])
    decreases |heights|
  {
    if |heights| == 0 || Complete(occupied, width, heights[0]) then 0
    else 1 + FirstCompleteLine(occupied, width, heights[1..])
  }

  /**
   * `check_for_complete_lines`: the first of `heights` that is a complete line, if any,
   * becomes the new bottom of every column; otherwise nothing changes.
   */
  function CheckForCompleteLines(occupied: seq<set<nat>>, width: nat, heights: seq<nat>): (r: seq<set<nat>>)
    requires |occupied| == width + 1
    ensures |r| == |occupied|
  {
    var k := FirstCompleteLine(occupied, width, heights);
    if k < |heights| then DiscardBelow(occupied, heights[k]) else occupied
  }

  /** No height before the one found is a complete line. */
  lemma {:induction false} FirstCompleteLineIsFirst(occupied: seq<set<nat>>, width: nat, heights: seq<nat>)
    requires |occupied| == width + 1
    ensures forall j :: 0 <= j < FirstCompleteLine(occupied, width, heights) ==> !Complete(occupied, width, heights[j])
    decreases |heights|
  {
    if |heights| > 0 && !Complete(occupied, width, heights[0]) {
      FirstCompleteLineIsFirst(occupied, width, heights[1..]);
      assert forall j :: 1 <= j < |heights| ==> heights[j] == heights[1..][j - 1];
    }
  }

  /**
   * Checking discards exactly the cells below the first complete line among `heights`,
   * in every column but the wall; with no complete line it changes nothing.
   */
  lemma CheckDiscardsBelowFirstComplete(occupied: seq<set<nat>>, width: nat, heights: seq<nat>)
    requires |occupied| == width + 1
    ensures (forall k :: 0 <= k < |heights| ==> !Complete(occupied, width, heights[k])) ==>
              CheckForCompleteLines(occupied, width, heights) == occupied
    ensures forall k :: 0 <= k < |heights| && Complete(occupied, width, heights[k])
              && (forall j :: 0 <= j < k ==> !Complete(occupied, width, heights[j]))
              ==> CheckForCompleteLines(occupied, width, heights) == DiscardBelow(occupied, heights[k])
  {
    FirstCompleteLineIsFirst(occupied, width, heights);
  }

  /** Discarding everything below a complete line keeps each column's highest cell, so the height. */
  lemma DiscardKeepsHeight(occupied: seq<set<nat>>, width: nat, h: nat)
    requires Shaped(occupied, width) && Complete(occupied, width, h)
    ensures Shaped(DiscardBelow(occupied, h), width)
    ensures Height(DiscardBelow(occupied, h), width) == Height(occupied, width)
  {
    var r := DiscardBelow(occupied, h);
    forall c | 1 <= c <= width
      ensures r[c] != {} && SetMax(r[c]) == SetMax(occupied[c])
    {
      assert h in r[c];
      var top := SetMax(occupied[c]);
      assert top >= h && top in r[c];
      assert SetMax(r[c]) in occupied[c];
    }
    HeightDependsOnTops(r, occupied, width);
  }

  /** Checking for complete lines never changes the height. */
  lemma CheckKeepsHeight(occupied: seq<set<nat>>, width: nat, heights: seq<nat>)
    requires Shaped(occupied, width)
    ensures Shaped(CheckForCompleteLines(occupied, width, heights), width)
    ensures Height(CheckForCompleteLines(occupied, width, heights), width) == Height(occupied, width)
  {
    var k := FirstCompleteLine(occupied, width, heights);
    if k < |heights| {
      DiscardKeepsHeight(occupied, width, heights[k]);
    }
  }

  /** The distinct heights of a set, highest first (`sorted().rev().dedup()`). */
  function RowsDescending(ys: set<nat>): (r: seq<nat>)
    ensures forall v :: v in ys <==> v in r
    ensures forall i, j :: 0 <= i < j < |r| ==> r[i] > r[j]
    decreases ys
  {
    if ys == {} then []
    else
      var top := SetMax(ys);
      var rest := RowsDescending(ys - {top});
      [top] + rest
  }

  /** The rows a rock's cells are in. */
  function Rows(cells: seq<Cell>): (r: set<nat>)
    ensures forall y :: y in r <==> exists i :: 0 <= i < |cells| && cells[i].1 == y
  {
    set i | 0 <= i < |cells| :: cells[i].1
  }

  /** Adds each cell's height to its column's set. */
  function InsertCells(occupied: seq<set<nat>>, cells: seq<Cell>): (r: seq<set<nat>>)
    requires forall i :: 0 <= i < |cells| ==> cells[i].0 < |occupied|
    ensures |r| == |occupied|
    ensures forall c, v :: 0 <= c < |r| ==> (v in r[c] <==> v in occupied[c] || (c, v) in cells)
    decreases |cells|
  {
    if |cells| == 0 then occupied
    else
      var n := |cells| - 1;
      var before := InsertCells(occupied, cells[..n]);
      var (x, y) := cells[n];
      assert forall cell :: cell in cells <==> cell in cells[..n] || cell == cells[n];
      before[x := before[x] + {y}]
  }

  /**
   * The settled cells after a rock at `cells` comes to rest: its cells are added, then
   * its rows, highest first, are checked for a complete line.
   */
  function Settle(occupied: seq<set<nat>>, width: nat, cells: seq<Cell>): (r: seq<set<nat>>)
    requires Shaped(occupied, width)
    requires forall i :: 0 <= i < |cells| ==> cells[i].0 <= width
    ensures Shaped(r, width)
    ensures forall i :: 0 <= i < |cells| && cells[i].0 >= 1 ==> cells[i].1 <= Height(r, width)
  {
    var inserted := InsertCells(occupied, cells);
    var heights := RowsDescending(Rows(cells));
    assert forall i :: 0 <= i < |cells| && cells[i].0 >= 1 ==> cells[i].1 in inserted[cells[i].0];
    CheckKeepsHeight(inserted, width, heights);
    CheckForCompleteLines(inserted, width, heights)
  }

  /**
   * `lock_falling_rock`: the rock settles, and the next shape appears at (3, height + 4),
   * above every cell of the rock that just settled.
   */
  function LockFallingRock(s: Rocktris): (r: Rocktris)
    requires Shaped(s.occupied, s.width)
    requires forall i :: 0 <= i < |s.fallingRock.positions| ==> s.fallingRock.positions[i].0 <= s.width
    ensures r.width == s.width && r.movementsCompleted == s.movementsCompleted
    ensures r.placedRocks == s.placedRocks + 1
    ensures r.occupied == Settle(s.occupied, s.width, s.fallingRock.positions)
    ensures r.fallingRock == Spawn(NextShape(s.fallingRock.shape), r.occupied, r.width)
  {
    var occupied := Settle(s.occupied, s.width, s.fallingRock.positions);
    Rocktris(s.width, s.placedRocks + 1, s.movementsCompleted, occupied,
             Spawn(NextShape(s.fallingRock.shape), occupied, s.width))
  }

  /** Every cell of the rock has a free cell below it inside the walls. */
  predicate CanFall(s: Rocktris)
    requires |s.occupied| == s.width + 1
    requires forall i :: 0 <= i < |s.fallingRock.positions| ==> s.fallingRock.positions[i].0 <= s.width
  {
    forall i :: 0 <= i < |s.fallingRock.positions| ==>
      var (x, y) := s.fallingRock.positions[i];
      x >= 1 && (y == 0 || y - 1 !in s.occupied[x])
  }

  /** `move_down`: the rock falls one row if nothing is below any of its cells, and otherwise comes to rest. */
  function MoveDown(s: Rocktris): (r: Rocktris)
    requires Shaped(s.occupied, s.width)
    requires forall i :: 0 <= i < |s.fallingRock.positions| ==>
               s.fallingRock.positions[i].0 <= s.width && s.fallingRock.positions[i].1 >= 1
    ensures CanFall(s) ==> r == s.(fallingRock := s.fallingRock.(positions := ShiftDown(s.fallingRock.positions)))
    ensures !CanFall(s) ==> r == LockFallingRock(s)
  {
    var moved := ShiftDown(s.fallingRock.positions);
    var fits := Fits(s, moved);
    assert fits <==> CanFall(s) by {
      var cells := s.fallingRock.positions;
      assert forall i :: 0 <= i < |cells| ==> moved[i] == (cells[i].0, cells[i].1 - 1);
    }
    if fits then s.(fallingRock := s.fallingRock.(positions := moved)) else LockFallingRock(s)
  }

  /** The precondition each move needs of the falling rock: inside the walls, above row 0. */
  predicate InsideWalls(s: Rocktris) {
    forall i :: 0 <= i < |s.fallingRock.positions| ==>
      1 <= s.fallingRock.positions[i].0 <= s.width && s.fallingRock.positions[i].1 >= 1
  }

  /** `apply_movement`: one move, counted. */
  function ApplyMovement(s: Rocktris, m: Movement): (r: Rocktris)
    requires Shaped(s.occupied, s.width) && InsideWalls(s)
    ensures r.movementsCompleted == s.movementsCompleted + 1
    ensures r.width == s.width
    ensures m != Down ==> r.placedRocks == s.placedRocks && r.occupied == s.occupied
    ensures r.placedRocks == s.placedRocks || r.placedRocks == s.placedRocks + 1
  {
    var moved := match m
      case Left => MoveLeft(s)
      case Right => MoveRight(s)
      case Down => MoveDown(s);
    moved.(movementsCompleted := s.movementsCompleted + 1)
  }
}
