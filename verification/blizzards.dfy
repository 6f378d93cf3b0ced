/**
 * Blizzard basin (day 24): blizzards wrap around the inner grid, so a blizzard's position
 * after t minutes is a modular shift of its start, and the grid repeats after
 * height * width minutes. Positions are (row, column) in the inner grid.
 */
module Blizzards {

  import opened Common

  datatype Direction = Up | Down | Left | Right

  datatype Material = Empty | Blizzard(direction: Direction)

  /** The material a grid character stands for; anything but an arrow is empty ground. */
  function ParseChar(c: char): (m: Material)
    ensures m.Blizzard? <==> c in {'>', '<', 'v', '^'}
  {
    match c
    case '>' => Blizzard(Right)
    case '<' => Blizzard(Left)
    case 'v' => Blizzard(Down)
    case '^' => Blizzard(Up)
    case _ => Empty
  }

  function Opposite(d: Direction): Direction {
    match d
    case Up => Down
    case Down => Up
    case Left => Right
    case Right => Left
  }

  /** A position of the inner grid, a `height` by `width` grid. */
  predicate InBounds(p: (nat, nat), height: nat, width: nat) {
    p.0 < height && p.1 < width
  }

  /** `move_in_direction`: `amount` steps in `direction`, wrapping around the grid. */
  function MoveInDirection(p: (nat, nat), amount: nat, direction: Direction, height: nat, width: nat): (r: (nat, nat))
    requires height > 0 && width > 0
    ensures direction in {Up, Down} ==> r.0 < height && r.1 == p.1
    ensures direction in {Left, Right} ==> r.1 < width && r.0 == p.0
    ensures InBounds(p, height, width) ==> InBounds(r, height, width)
  {
    var (x, y) := p;
    match direction
    case Up => ((x + height - amount % height) % height, y)
    case Left => (x, (y + width - amount % width) % width)
    case Down => ((x + amount % height) % height, y)
    case Right => (x, (y + amount % width) % width)
  }

  /**
   * Along one axis of length n, shifting forward and back by the same reduced amount r,
   * either way round, returns to the start.
   */
  lemma AxisRoundTrip(x: nat, r: nat, n: nat)
    requires x < n && r < n
    ensures ((x + r) % n + n - r) % n == x
    ensures ((x + n - r) % n + r) % n == x
  {
    ModUnique(x, n, 0, x);
    ModUnique(x + n, n, 1, x);
    if x + r < n {
      ModUnique(x + r, n, 0, x + r);
    } else {
      ModUnique(x + r, n, 1, x + r - n);
    }
    if r <= x {
      ModUnique(x + n - r, n, 1, x - r);
    } else {
      ModUnique(x + n - r, n, 0, x + n - r);
    }
  }

  /** Moving by `amount` and then by `amount` the opposite way returns to the start. */
  lemma MoveThenOppositeReturns(p: (nat, nat), amount: nat, d: Direction, height: nat, width: nat)
    requires height > 0 && width > 0 && InBounds(p, height, width)
    ensures MoveInDirection(MoveInDirection(p, amount, d, height, width), amount, Opposite(d), height, width) == p
  {
    var (x, y) := p;
    var rh, rw := amount % height, amount % width;
    var q := MoveInDirection(p, amount, d, height, width);
    match d
    case Up =>
      assert q == ((x + height - rh) % height, y);
      AxisRoundTrip(x, rh, height);
    case Down =>
      assert q == ((x + rh) % height, y);
      AxisRoundTrip(x, rh, height);
    case Left =>
      assert q == (x, (y + width - rw) % width);
      AxisRoundTrip(y, rw, width);
    case Right =>
      assert q == (x, (y + rw) % width);
      AxisRoundTrip(y, rw, width);
  }

  /** Only the amount modulo the axis length matters, so whole laps change nothing. */
  lemma MoveIsPeriodic(p: (nat, nat), amount: nat, d: Direction, height: nat, width: nat)
    requires height > 0 && width > 0
    ensures d in {Up, Down} ==>
              MoveInDirection(p, amount, d, height, width) == MoveInDirection(p, amount % height, d, height, width)
    ensures d in {Left, Right} ==>
              MoveInDirection(p, amount, d, height, width) == MoveInDirection(p, amount % width, d, height, width)
  {
    ModUnique(amount % height, height, 0, amount % height);
    ModUnique(amount % width, width, 0, amount % width);
  }

  /** After height * width minutes every blizzard is back where it started. */
  lemma MoveByPeriodReturns(p: (nat, nat), d: Direction, height: nat, width: nat)
    requires height > 0 && width > 0 && InBounds(p, height, width)
    ensures MoveInDirection(p, height * width, d, height, width) == p
  {
    ModUnique(height * width, height, width, 0);
    ModUnique(height * width, width, height, 0);
    ModUnique(p.0 + height, height, 1, p.0);
    ModUnique(p.1 + width, width, 1, p.1);
    ModUnique(p.0, height, 0, p.0);
    ModUnique(p.1, width, 0, p.1);
  }

  /**
   * `neighbours`: waiting in place first, then the in-bounds cells above, below, left
   * and right, all one minute later on the repeating clock.
   */
  function Neighbours(p: (nat, nat, nat), height: nat, width: nat, timespan: nat): (r: seq<(nat, nat, nat)>)
    requires height > 0 && width > 0 && timespan > 0
    ensures 1 <= |r| <= 5
    ensures r[0] == (p.0, p.1, (p.2 + 1) % timespan)
    ensures forall i :: 0 <= i < |r| ==> r[i].2 == (p.2 + 1) % timespan
    ensures forall i :: 0 <= i < |r| ==>
              (r[i].0 == p.0 && r[i].1 == p.1) || (r[i].0 == p.0 && (r[i].1 + 1 == p.1 || p.1 + 1 == r[i].1))
              || (r[i].1 == p.1 && (r[i].0 + 1 == p.0 || p.0 + 1 == r[i].0))
    ensures p.0 < height && p.1 < width ==> forall i :: 0 <= i < |r| ==> r[i].0 < height && r[i].1 < width
  {
    var (x, y, t) := p;
    var next := (t + 1) % timespan;
    [(x, y, next)]
    + (if x > 0 then [(x - 1, y, next)] else [])
    + (if x < height - 1 then [(x + 1, y, next)] else [])
    + (if y > 0 then [(x, y - 1, next)] else [])
    + (if y < width - 1 then [(x, y + 1, next)] else [])
  }

  /** No move is listed twice. */
  lemma NeighboursDistinct(p: (nat, nat, nat), height: nat, width: nat, timespan: nat)
    requires height > 0 && width > 0 && timespan > 0
    ensures var r := Neighbours(p, height, width, timespan);
      forall i, j :: 0 <= i < j < |r| ==> r[i] != r[j]
  {
    var r := Neighbours(p, height, width, timespan);
    forall i, j | 0 <= i < j < |r| ensures r[i] != r[j] {
      if i == 0 {
        assert r[j] != (p.0, p.1, r[j].2);
      }
    }
  }

  /** Every in-grid cell next to the position is among the moves, one minute later. */
  lemma NeighboursComplete(p: (nat, nat, nat), height: nat, width: nat, timespan: nat, q: (nat, nat))
    requires height > 0 && width > 0 && timespan > 0
    requires q.0 < height && q.1 < width
    requires ((q.0 + 1 == p.0 || p.0 + 1 == q.0) && q.1 == p.1) || ((q.1 + 1 == p.1 || p.1 + 1 == q.1) && q.0 == p.0)
    ensures (q.0, q.1, (p.2 + 1) % timespan) in Neighbours(p, height, width, timespan)
  {
    var (x, y, t) := p;
    var next := (t + 1) % timespan;
    var a := if x > 0 then [(x - 1, y, next)] else [];
    var b := if x < height - 1 then [(x + 1, y, next)] else [];
    var c := if y > 0 then [(x, y - 1, next)] else [];
    var d := if y < width - 1 then [(x, y + 1, next)] else [];
    var r := Neighbours(p, height, width, timespan);
    assert r == [(x, y, next)] + a + b + c + d;
    var e := (q.0, q.1, next);
    if q.0 + 1 == x && q.1 == y { assert e in a; }
    else if x + 1 == q.0 && q.1 == y { assert e in b; }
    else if q.1 + 1 == y { assert e in c; }
    else { assert e in d; }
  }

  /** Every row of the grid has the first row's width. */
  predicate Rectangular(grid: seq<seq<Material>>) {
    |grid| > 0 && forall x :: 0 <= x < |grid| ==> |grid[x]| == |grid[0]|
  }

  /** The blizzard starting at (x, y) is at `target` after t minutes. */
  predicate Hits(grid: seq<seq<Material>>, t: nat, x: nat, y: nat, target: (nat, nat))
    requires Rectangular(grid) && x < |grid| && y < |grid[0]| && |grid[0]| > 0
  {
    grid[x][y].Blizzard? && MoveInDirection((x, y), t, grid[x][y].direction, |grid|, |grid[0]|) == target
  }

  /** Some blizzard whose start comes before (x, y) in row-major order is at `target` after t minutes. */
  ghost predicate HitBefore(grid: seq<seq<Material>>, t: nat, x: nat, y: nat, target: (nat, nat))
    requires Rectangular(grid) && |grid[0]| > 0
  {
    exists x', y' :: 0 <= x' < |grid| && 0 <= y' < |grid[0]| && (x' < x || (x' == x && y' < y))
                     && Hits(grid, t, x', y', target)
  }

  /** A cell is free at time t exactly when no blizzard is there. */
  ghost predicate FreeAt(grid: seq<seq<Material>>, t: nat, target: (nat, nat))
    requires Rectangular(grid) && |grid[0]| > 0
  {
    !exists x', y' :: 0 <= x' < |grid| && 0 <= y' < |grid[0]| && Hits(grid, t, x', y', target)
  }

  /** Moving for a whole period more lands on the same cell: only the time modulo the period matters. */
  lemma MoveShiftedByPeriod(p: (nat, nat), t: nat, d: Direction, height: nat, width: nat)
    requires height > 0 && width > 0
    ensures MoveInDirection(p, t + height * width, d, height, width) == MoveInDirection(p, t, d, height, width)
  {
    ModUnique(t + height * width, height, t / height + width, t % height);
    ModUnique(t + height * width, width, t / width + height, t % width);
    MoveIsPeriodic(p, t, d, height, width);
    MoveIsPeriodic(p, t + height * width, d, height, width);
  }

  /**
   * The free cells repeat with period height * width, which is why the search may take
   * the time modulo that period.
   */
  lemma FreeAtIsPeriodic(grid: seq<seq<Material>>, t: nat, target: (nat, nat))
    requires Rectangular(grid) && |grid[0]| > 0
    ensures FreeAt(grid, t + |grid| * |grid[0]|, target) <==> FreeAt(grid, t, target)
  {
    var later := t + |grid| * |grid[0]|;
    forall x', y' | 0 <= x' < |grid| && 0 <= y' < |grid[0]|
      ensures Hits(grid, later, x', y', target) <==> Hits(grid, t, x', y', target)
    {
      HitsShiftedByPeriod(grid, t, x', y', target);
    }
  }

  lemma HitsShiftedByPeriod(grid: seq<seq<Material>>, t: nat, x: nat, y: nat, target: (nat, nat))
    requires Rectangular(grid) && x < |grid| && y < |grid[0]| && |grid[0]| > 0
    ensures Hits(grid, t + |grid| * |grid[0]|, x, y, target) <==> Hits(grid, t, x, y, target)
  {
    if grid[x][y].Blizzard? {
      MoveShiftedByPeriod((x, y), t, grid[x][y].direction, |grid|, |grid[0]|);
    }
  }

  /** Every row of a layer has the grid's width. */
  predicate LayerShape(layer: seq<seq<bool>>, height: nat, width: nat) {
    |layer| == height && forall a :: 0 <= a < height ==> |layer[a]| == width
  }

  /** A layer in which exactly the cells hit by blizzards starting before (x, y) are cleared. */
  ghost predicate ClearedBefore(grid: seq<seq<Material>>, t: nat, x: nat, y: nat, layer: seq<seq<bool>>)
    requires Rectangular(grid) && |grid[0]| > 0
  {
    LayerShape(layer, |grid|, |grid[0]|)
    && forall a, b :: 0 <= a < |grid| && 0 <= b < |grid[0]| ==> (layer[a][b] <==> !HitBefore(grid, t, x, y, (a, b)))
  }

  /** One more start in row-major order adds exactly the cells its blizzard hits. */
  lemma HitStep(grid: seq<seq<Material>>, t: nat, x: nat, y: nat, target: (nat, nat))
    requires Rectangular(grid) && |grid[0]| > 0 && x < |grid| && y < |grid[0]|
    ensures HitBefore(grid, t, x, y + 1, target) <==> HitBefore(grid, t, x, y, target) || Hits(grid, t, x, y, target)
  {
    if HitBefore(grid, t, x, y + 1, target) && !Hits(grid, t, x, y, target) {
      var x', y' :| 0 <= x' < |grid| && 0 <= y' < |grid[0]| && (x' < x || (x' == x && y' < y + 1))
                    && Hits(grid, t, x', y', target);
      assert x' != x || y' != y;
    }
  }

  /** Clearing the cell the blizzard at (x, y) reaches extends the invariant past (x, y). */
  lemma MarkStep(grid: seq<seq<Material>>, t: nat, x: nat, y: nat, before: seq<seq<bool>>, after: seq<seq<bool>>)
    requires Rectangular(grid) && |grid[0]| > 0 && x < |grid| && y < |grid[0]|
    requires ClearedBefore(grid, t, x, y, before)
    requires grid[x][y].Empty? ==> after == before
    requires grid[x][y].Blizzard? ==>
               var p := MoveInDirection((x, y), t, grid[x][y].direction, |grid|, |grid[0]|);
               after == before[p.0 := before[p.0][p.1 := false]]
    ensures ClearedBefore(grid, t, x, y + 1, after)
  {
    forall a, b | 0 <= a < |grid| && 0 <= b < |grid[0]|
      ensures after[a][b] <==> !HitBefore(grid, t, x, y + 1, (a, b))
    {
      HitStep(grid, t, x, y, (a, b));
    }
  }

  /** The end of a row is the start of the next. */
  lemma RowDone(grid: seq<seq<Material>>, t: nat, x: nat, layer: seq<seq<bool>>)
    requires Rectangular(grid) && |grid[0]| > 0
    requires ClearedBefore(grid, t, x, |grid[0]|, layer)
    ensures ClearedBefore(grid, t, x + 1, 0, layer)
  {
    forall a, b | 0 <= a < |grid| && 0 <= b < |grid[0]| && HitBefore(grid, t, x + 1, 0, (a, b))
      ensures HitBefore(grid, t, x, |grid[0]|, (a, b))
    {
      var x', y' :| 0 <= x' < |grid| && 0 <= y' < |grid[0]| && (x' < x + 1 || (x' == x + 1 && y' < 0))
                    && Hits(grid, t, x', y', (a, b));
      assert x' < x || (x' == x && y' < |grid[0]|);
    }
  }

  /** The layer of free cells at one time: start all free, then clear every blizzard's cell. */
  method Layer(grid: seq<seq<Material>>, t: nat) returns (layer: seq<seq<bool>>)
    requires Rectangular(grid) && |grid[0]| > 0
    ensures |layer| == |grid|
    ensures forall a :: 0 <= a < |layer| ==> |layer[a]| == |grid[0]|
    ensures forall a, b :: 0 <= a < |grid| && 0 <= b < |grid[0]| ==> (layer[a][b] <==> FreeAt(grid, t, (a, b)))
  {
    var height, width := |grid|, |grid[0]|;
    layer := seq(height, _ => seq(width, _ => true));
    for x := 0 to height
      invariant ClearedBefore(grid, t, x, 0, layer)
    {
      for y := 0 to width
        invariant ClearedBefore(grid, t, x, y, layer)
      {
        ghost var before := layer;
        if grid[x][y].Blizzard? {
          var (px, py) := MoveInDirection((x, y), t, grid[x][y].direction, height, width);
          layer := layer[px := layer[px][py := false]];
        }
        MarkStep(grid, t, x, y, before, layer);
      }
      RowDone(grid, t, x, layer);
    }
    assert forall a, b :: 0 <= a < height && 0 <= b < width ==>
             (HitBefore(grid, t, height, 0, (a, b)) <==> !FreeAt(grid, t, (a, b)));
  }

  /**
   * `add_time_dimension`: one layer per minute of the period height * width; cell (a, b)
   * of layer t is free exactly when no blizzard is there at minute t.
   */
  method AddTimeDimension(grid: seq<seq<Material>>) returns (timed: seq<seq<seq<bool>>>)
    requires Rectangular(grid) && |grid[0]| > 0
    ensures |timed| == |grid| * |grid[0]|
    ensures forall t :: 0 <= t < |timed| ==> (|timed[t]| == |grid|
              && forall a :: 0 <= a < |grid| ==> |timed[t][a]| == |grid[0]|)
    ensures forall t, a, b :: 0 <= t < |timed| && 0 <= a < |grid| && 0 <= b < |grid[0]| ==>
              (timed[t][a][b] <==> FreeAt(grid, t, (a, b)))
  {
    timed := [];
    for t := 0 to |grid| * |grid[0]|
      invariant |timed| == t
      invariant forall t' :: 0 <= t' < t ==> (|timed[t']| == |grid|
                  && forall a :: 0 <= a < |grid| ==> |timed[t'][a]| == |grid[0]|)
      invariant forall t', a, b :: 0 <= t' < t && 0 <= a < |grid| && 0 <= b < |grid[0]| ==>
                  (timed[t'][a][b] <==> FreeAt(grid, t', (a, b)))
    {
      var layer := Layer(grid, t);
      timed := timed + [layer];
    }
  }
}
