/**
 * Regolith reservoir (day 14): rock paths drawn from corner points, and grains of sand
 * falling from (500, 0) into a grid of cells. Points are (column, row), rows growing
 * downwards.
 */
module Sand {

  import opened Common

  type Point = (nat, nat)

  /** Two points at distance one along an axis. */
  predicate Adjacent(a: Point, b: Point) {
    (a.0 == b.0 && (a.1 + 1 == b.1 || b.1 + 1 == a.1)) ||
    (a.1 == b.1 && (a.0 + 1 == b.0 || b.0 + 1 == a.0))
  }

  predicate Aligned(a: Point, b: Point) {
    a.0 == b.0 || a.1 == b.1
  }

  function Dist(a: nat, b: nat): nat {
    if a <= b then b - a else a - b
  }

  /** The points after `from` up to and including `to`, one unit step at a time. */
  function Segment(from: Point, to: Point): (r: seq<Point>)
    requires Aligned(from, to)
    ensures |r| == Dist(from.0, to.0) + Dist(from.1, to.1)
    ensures |r| > 0 ==> Adjacent(from, r[0]) && r[|r| - 1] == to
    ensures forall i :: 0 < i < |r| ==> Adjacent(r[i - 1], r[i])
  {
    var (ox, oy) := from;
    var (nx, ny) := to;
    if nx == ox && ny >= oy then seq(ny - oy, i requires 0 <= i < ny - oy => (ox, oy + 1 + i))
    else if nx == ox then seq(oy - ny, i requires 0 <= i < oy - ny => (ox, oy - 1 - i))
    else if nx >= ox then seq(nx - ox, i requires 0 <= i < nx - ox => (ox + 1 + i, oy))
    else seq(ox - nx, i requires 0 <= i < ox - nx => (ox - 1 - i, oy))
  }

  /** Every consecutive pair of the path is adjacent. */
  predicate Connected(path: seq<Point>) {
    forall i :: 0 < i < |path| ==> Adjacent(path[i - 1], path[i])
  }

  /**
   * `extend_path`: walks from the path's last point to `point` along a row or column;
   * a point on neither is an error.
   */
  function ExtendPath(path: seq<Point>, point: Point): (r: Option<seq<Point>>)
    requires |path| > 0
    ensures r.Some? <==> Aligned(path[|path| - 1], point)
    ensures r.Some? ==> |r.value| >= |path| && r.value[..|path|] == path && r.value[|r.value| - 1] == point
    ensures r.Some? ==> forall i :: |path| <= i < |r.value| ==> Adjacent(r.value[i - 1], r.value[i])
    ensures r.Some? && Connected(path) ==> Connected(r.value)
  {
    var last := path[|path| - 1];
    if !Aligned(last, point) then None
    else
      var added := Segment(last, point);
      var r := path + added;
      assert forall i :: |path| <= i < |r| ==> r[i] == added[i - |path|];
      Some(r)
  }

  /** Every corner is on the row or column of the one before it. */
  predicate CornersAligned(points: seq<Point>) {
    forall i :: 0 < i < |points| ==> Aligned(points[i - 1], points[i])
  }

  lemma CornersAlignedPrefix(points: seq<Point>)
    requires |points| > 1
    ensures CornersAligned(points) <==>
              CornersAligned(points[..|points| - 1]) && Aligned(points[|points| - 2], points[|points| - 1])
  {
    var prefix := points[..|points| - 1];
    assert forall i :: 0 <= i < |prefix| ==> prefix[i] == points[i];
  }

  /** Extending a path keeps every point it already visited. */
  lemma ExtendKeepsPoints(path: seq<Point>, extended: seq<Point>, corners: seq<Point>)
    requires |path| <= |extended| && extended[..|path|] == path
    requires forall i :: 0 <= i < |corners| ==> corners[i] in path
    ensures forall i :: 0 <= i < |corners| ==> corners[i] in extended
  {
    forall i | 0 <= i < |corners|
      ensures corners[i] in extended
    {
      var j :| 0 <= j < |path| && path[j] == corners[i];
      assert extended[j] == path[j];
    }
  }

  /** `fill_path`: the corner points joined up; a corner off the previous one's row and column is an error. */
  function FillPath(points: seq<Point>): (r: Option<seq<Point>>)
    requires |points| > 0
    ensures r.Some? <==> CornersAligned(points)
    ensures r.Some? ==> |r.value| > 0 && Connected(r.value) && r.value[0] == points[0] && r.value[|r.value| - 1] == points[|points| - 1]
    ensures r.Some? ==> forall i :: 0 <= i < |points| ==> points[i] in r.value
    decreases |points|
  {
    if |points| == 1 then Some([points[0]])
    else
      var prefix := points[..|points| - 1];
      CornersAlignedPrefix(points);
      match FillPath(prefix)
      case None => None
      case Some(path) =>
        match ExtendPath(path, points[|points| - 1])
        case None => None
        case Some(extended) =>
          ExtendCorners(points, prefix, path, extended);
          Some(extended)
  }

  /** Extending the path through the corners before the last one reaches the last one too. */
  lemma ExtendCorners(points: seq<Point>, prefix: seq<Point>, path: seq<Point>, extended: seq<Point>)
    requires |points| > 1 && prefix == points[..|points| - 1]
    requires |path| > 0 && Connected(path) && path[0] == points[0]
    requires forall i :: 0 <= i < |prefix| ==> prefix[i] in path
    requires ExtendPath(path, points[|points| - 1]) == Some(extended)
    ensures |extended| > 0 && Connected(extended) && extended[0] == points[0]
    ensures extended[|extended| - 1] == points[|points| - 1]
    ensures forall i :: 0 <= i < |points| ==> points[i] in extended
  {
    ExtendKeepsPoints(path, extended, prefix);
    assert extended[0] == path[0];
    forall i | 0 <= i < |points|
      ensures points[i] in extended
    {
      if i < |prefix| {
        assert points[i] == prefix[i];
      }
    }
  }

  datatype Material = Rock | Sand | Air

  datatype Sandbox = Sandbox(entryPoint: Point, hasFloor: bool, contents: seq<seq<Material>>)

  /** The material at a point, or None outside the grid. */
  function ContentsAt(s: Sandbox, p: Point): (r: Option<Material>)
    ensures r.Some? <==> p.1 < |s.contents| && p.0 < |s.contents[p.1]|
    ensures r.Some? ==> r.value == s.contents[p.1][p.0]
  {
    if p.1 < |s.contents| && p.0 < |s.contents[p.1]| then Some(s.contents[p.1][p.0]) else None
  }

  predicate IsAir(s: Sandbox, p: Point) {
    ContentsAt(s, p) == Some(Air)
  }

  /**
   * The three cells a grain tries, in order: straight down, down-left, down-right. At
   * column 0 the down-left cell does not exist.
   */
  function Candidates(p: Point): seq<Option<Point>> {
    [Some((p.0, p.1 + 1)), if p.0 == 0 then None else Some((p.0 - 1, p.1 + 1)), Some((p.0 + 1, p.1 + 1))]
  }

  predicate CandidateIsAir(s: Sandbox, c: Option<Point>) {
    c.Some? && IsAir(s, c.value)
  }

  /** `point_to_fall_to`: the first candidate cell holding air, if any. */
  function PointToFallTo(s: Sandbox, p: Point): (r: Option<Point>)
    ensures r.Some? <==> exists k :: 0 <= k < 3 && CandidateIsAir(s, Candidates(p)[k])
    ensures r.Some? ==> exists k :: (0 <= k < 3 && Candidates(p)[k] == r
              && CandidateIsAir(s, Candidates(p)[k])
              && forall j :: 0 <= j < k ==> !CandidateIsAir(s, Candidates(p)[j]))
    ensures r.Some? ==> r.value.1 == p.1 + 1 && r.value.1 < |s.contents| && IsAir(s, r.value)
  {
    var c := Candidates(p);
    if CandidateIsAir(s, c[0]) then c[0]
    else if CandidateIsAir(s, c[1]) then c[1]
    else if CandidateIsAir(s, c[2]) then c[2]
    else None
  }

  /** Where a grain starting at `p` comes to rest: it falls while some candidate holds air. */
  function FinalDestination(s: Sandbox, p: Point): (r: Point)
    ensures PointToFallTo(s, r) == None
    ensures r.1 >= p.1
    ensures IsAir(s, p) ==> IsAir(s, r)
    decreases |s.contents| - p.1
  {
    match PointToFallTo(s, p)
    case None => p
    case Some(q) => FinalDestination(s, q)
  }

  /**
   * `drop_sand`: when the entry point holds air, the grain falls to rest and is placed
   * unless, without a floor, it rests on the last row (it would fall forever).
   */
  function DropSand(s: Sandbox): (r: (bool, Sandbox))
    ensures !IsAir(s, s.entryPoint) ==> r == (false, s)
    ensures !r.0 ==> r.1 == s
    ensures r.0 ==> IsAir(s, s.entryPoint)
    ensures r.0 ==>
              var p := FinalDestination(s, s.entryPoint);
              IsAir(s, p) && PointToFallTo(s, p).None?
              && r.1 == s.(contents := s.contents[p.1 := s.contents[p.1][p.0 := Sand]])
    ensures IsAir(s, s.entryPoint) && !s.hasFloor ==>
              (r.0 <==> FinalDestination(s, s.entryPoint).1 < |s.contents| - 1)
    ensures IsAir(s, s.entryPoint) && s.hasFloor ==> r.0
  {
    if IsAir(s, s.entryPoint) then
      var p := FinalDestination(s, s.entryPoint);
      if s.hasFloor || p.1 < |s.contents| - 1 then
        (true, s.(contents := s.contents[p.1 := s.contents[p.1][p.0 := Sand]]))
      else
        (false, s)
    else
      (false, s)
  }

  /** The number of cells holding a material. */
  function CountIn(row: seq<Material>, m: Material): nat {
    if |row| == 0 then 0 else CountIn(row[..|row| - 1], m) + (if row[|row| - 1] == m then 1 else 0)
  }

  function Count(grid: seq<seq<Material>>, m: Material): nat {
    if |grid| == 0 then 0 else Count(grid[..|grid| - 1], m) + CountIn(grid[|grid| - 1], m)
  }

  lemma {:induction false} CountInUpdate(row: seq<Material>, i: nat, m: Material, v: Material)
    requires i < |row|
    ensures CountIn(row[i := v], m) + (if row[i] == m then 1 else 0) == CountIn(row, m) + (if v == m then 1 else 0)
    decreases |row|
  {
    var n := |row|;
    if i < n - 1 {
      assert row[i := v][..n - 1] == row[..n - 1][i := v];
      CountInUpdate(row[..n - 1], i, m, v);
    } else {
      assert row[i := v][..n - 1] == row[..n - 1];
    }
  }

  lemma {:induction false} CountUpdate(grid: seq<seq<Material>>, y: nat, row: seq<Material>, m: Material)
    requires y < |grid|
    ensures Count(grid[y := row], m) + CountIn(grid[y], m) == Count(grid, m) + CountIn(row, m)
    decreases |grid|
  {
    var n := |grid|;
    if y < n - 1 {
      assert grid[y := row][..n - 1] == grid[..n - 1][y := row];
      CountUpdate(grid[..n - 1], y, row, m);
    } else {
      assert grid[y := row][..n - 1] == grid[..n - 1];
    }
  }

  /** A successful drop turns exactly one air cell into sand and leaves the rock alone. */
  lemma DropSandCounts(s: Sandbox)
    requires DropSand(s).0
    ensures Count(DropSand(s).1.contents, Sand) == Count(s.contents, Sand) + 1
    ensures Count(DropSand(s).1.contents, Air) + 1 == Count(s.contents, Air)
    ensures Count(DropSand(s).1.contents, Rock) == Count(s.contents, Rock)
  {
    var p := FinalDestination(s, s.entryPoint);
    var row := s.contents[p.1][p.0 := Sand];
    CountInUpdate(s.contents[p.1], p.0, Sand, Sand);
    CountInUpdate(s.contents[p.1], p.0, Air, Sand);
    CountInUpdate(s.contents[p.1], p.0, Rock, Sand);
    CountUpdate(s.contents, p.1, row, Sand);
    CountUpdate(s.contents, p.1, row, Air);
    CountUpdate(s.contents, p.1, row, Rock);
  }
}
