/**
 * The invariant of the falling-rock simulation (day 17): the falling rock stays between
 * the walls, above a floor shared by every column, and clear of every settled cell.
 */
module RocktrisInvariant {

  import opened Common
  import opened Rocktris

  /** All columns share a lowest height `f` (the floor, or the last complete line). */
  ghost predicate HasFloor(occupied: seq<set<nat>>, width: nat, f: nat)
    requires |occupied| == width + 1
  {
    forall c :: 1 <= c <= width ==> f in occupied[c] && forall v :: v in occupied[c] ==> f <= v
  }

  /** The falling rock lies between the walls, above the floor and clear of every settled cell. */
  ghost predicate RockClear(s: Rocktris, f: nat)
    requires |s.occupied| == s.width + 1
  {
    forall i :: 0 <= i < |s.fallingRock.positions| ==>
      var (x, y) := s.fallingRock.positions[i];
      1 <= x <= s.width && f < y && y !in s.occupied[x]
  }

  /** The state invariant of the simulation in a chamber wide enough for every shape. */
  ghost predicate Valid(s: Rocktris) {
    Shaped(s.occupied, s.width) && s.width >= SpawnColumn + 3
    && exists f :: HasFloor(s.occupied, s.width, f) && RockClear(s, f)
  }

  /** A floor under a clear rock is the witness `Valid` asks for. */
  lemma ValidWith(s: Rocktris, f: nat)
    requires Shaped(s.occupied, s.width) && s.width >= SpawnColumn + 3
    requires HasFloor(s.occupied, s.width, f) && RockClear(s, f)
    ensures Valid(s)
  {
  }

  /** The rock spawned above the height is clear of the settled cells. */
  lemma SpawnIsClear(s: Rocktris, f: nat, shape: RockShape)
    requires Shaped(s.occupied, s.width) && s.width >= SpawnColumn + 3 && HasFloor(s.occupied, s.width, f)
    requires s.fallingRock.positions == Spawn(shape, s.occupied, s.width).positions
    ensures RockClear(s, f)
  {
    var h := Height(s.occupied, s.width);
    assert f in s.occupied[1] && f <= h;
    assert s.fallingRock.positions == NewRock(shape, (SpawnColumn, h + SpawnGap)).positions;
    NewRockLayout(shape, (SpawnColumn, h + SpawnGap));
  }

  lemma NewIsValid(width: nat)
    requires width >= SpawnColumn + 3
    ensures Valid(NewRocktris(width))
  {
    var s := NewRocktris(width);
    assert HasFloor(s.occupied, width, 0);
    assert Height(s.occupied, width) == 0 by {
      assert 0 in s.occupied[1];
    }
    SpawnIsClear(s, 0, Horizontal);
  }

  /** Cells added above the floor keep the floor. */
  lemma InsertKeepsFloor(occupied: seq<set<nat>>, width: nat, cells: seq<Cell>, f: nat)
    requires |occupied| == width + 1 && HasFloor(occupied, width, f)
    requires forall i :: 0 <= i < |cells| ==> cells[i].0 <= width && f < cells[i].1
    ensures HasFloor(InsertCells(occupied, cells), width, f)
  {
    var inserted := InsertCells(occupied, cells);
    forall c, v | 1 <= c <= width && v in inserted[c]
      ensures f <= v
    {
      if v !in occupied[c] {
        var i :| 0 <= i < |cells| && cells[i] == (c, v);
      }
    }
  }

  /** After checking for complete lines there is still a common floor. */
  lemma CheckKeepsSomeFloor(occupied: seq<set<nat>>, width: nat, heights: seq<nat>, f: nat)
    requires |occupied| == width + 1 && HasFloor(occupied, width, f)
    ensures exists f' :: HasFloor(CheckForCompleteLines(occupied, width, heights), width, f')
  {
    var r := CheckForCompleteLines(occupied, width, heights);
    var k := FirstCompleteLine(occupied, width, heights);
    if k == |heights| {
      assert HasFloor(r, width, f);
    } else {
      var h := heights[k];
      forall c | 1 <= c <= width
        ensures h in r[c] && forall v :: v in r[c] ==> h <= v
      {
        assert h in occupied[c];
        assert r[c] == set v | v in occupied[c] && v >= h;
      }
      assert HasFloor(r, width, h);
    }
  }

  /** A locked rock leaves a valid chamber: the floor stays or rises to the cleared line. */
  lemma LockKeepsValid(s: Rocktris, f: nat) returns (r: Rocktris, f': nat)
    requires Shaped(s.occupied, s.width) && s.width >= SpawnColumn + 3 && HasFloor(s.occupied, s.width, f)
    requires forall i :: 0 <= i < |s.fallingRock.positions| ==>
               1 <= s.fallingRock.positions[i].0 <= s.width && f < s.fallingRock.positions[i].1
    ensures r == LockFallingRock(s)
    ensures Shaped(r.occupied, r.width) && HasFloor(r.occupied, r.width, f') && RockClear(r, f')
  {
    r := LockFallingRock(s);
    LockedRockSpawned(s);
    f' := SettleHasFloor(s.occupied, s.width, s.fallingRock.positions, f);
    SpawnIsClear(r, f', NextShape(s.fallingRock.shape));
  }

  /** After a lock the next rock stands at the spawn point above the new height. */
  lemma LockedRockSpawned(s: Rocktris)
    requires Shaped(s.occupied, s.width)
    requires forall i :: 0 <= i < |s.fallingRock.positions| ==> s.fallingRock.positions[i].0 <= s.width
    ensures var r := LockFallingRock(s);
      && Shaped(r.occupied, r.width)
      && r.occupied == Settle(s.occupied, s.width, s.fallingRock.positions) && r.width == s.width
      && r.fallingRock.positions == Spawn(NextShape(s.fallingRock.shape), r.occupied, r.width).positions
  {
  }

  /** The settled cells still have a common floor. */
  lemma SettleHasFloor(occupied: seq<set<nat>>, width: nat, cells: seq<Cell>, f: nat) returns (f': nat)
    requires Shaped(occupied, width) && HasFloor(occupied, width, f)
    requires forall i :: 0 <= i < |cells| ==> 1 <= cells[i].0 <= width && f < cells[i].1
    ensures HasFloor(Settle(occupied, width, cells), width, f')
  {
    var inserted := InsertCells(occupied, cells);
    InsertKeepsFloor(occupied, width, cells, f);
    CheckKeepsSomeFloor(inserted, width, RowsDescending(Rows(cells)), f);
    f' :| HasFloor(CheckForCompleteLines(inserted, width, RowsDescending(Rows(cells))), width, f');
  }

  /** A sideways move keeps the floor, and a rock that moves lands on free cells between the walls. */
  lemma SidewaysKeepsValid(s: Rocktris, f: nat, m: Movement)
    requires Shaped(s.occupied, s.width) && s.width >= SpawnColumn + 3
    requires HasFloor(s.occupied, s.width, f) && RockClear(s, f)
    requires m != Down
    ensures Valid(ApplyMovement(s, m))
  {
    var r := ApplyMovement(s, m);
    assert r.occupied == s.occupied;
    if r.fallingRock != s.fallingRock {
      var moved := r.fallingRock.positions;
      forall i | 0 <= i < |moved|
        ensures 1 <= moved[i].0 <= s.width && f < moved[i].1 && moved[i].1 !in s.occupied[moved[i].0]
      {
        assert !IsBlocked(s, moved[i]);
      }
    }
    assert RockClear(r, f);
  }

  /** A downward move either lands on free cells above the floor or locks the rock. */
  lemma DownKeepsValid(s: Rocktris, f: nat)
    requires Shaped(s.occupied, s.width) && s.width >= SpawnColumn + 3
    requires HasFloor(s.occupied, s.width, f) && RockClear(s, f)
    ensures Valid(ApplyMovement(s, Down))
  {
    var cells := s.fallingRock.positions;
    var moved := ShiftDown(cells);
    if Fits(s, moved) {
      var r := ApplyMovement(s, Down);
      assert r.occupied == s.occupied && r.fallingRock.positions == moved;
      forall i | 0 <= i < |moved|
        ensures 1 <= moved[i].0 <= s.width && f < moved[i].1 && moved[i].1 !in s.occupied[moved[i].0]
      {
        assert f in s.occupied[moved[i].0];
        assert !IsBlocked(s, moved[i]);
      }
      assert RockClear(r, f);
    } else {
      var locked, f' := LockKeepsValid(s, f);
      ValidWith(ApplyMovement(s, Down), f');
    }
  }

  /** Every move keeps the invariant: a rock never enters a wall, the floor or settled rock. */
  lemma ApplyMovementKeepsValid(s: Rocktris, m: Movement)
    requires Valid(s)
    ensures InsideWalls(s)
    ensures Valid(ApplyMovement(s, m))
  {
    var f: nat :| HasFloor(s.occupied, s.width, f) && RockClear(s, f);
    if m == Down {
      DownKeepsValid(s, f);
    } else {
      SidewaysKeepsValid(s, f, m);
    }
  }
}
