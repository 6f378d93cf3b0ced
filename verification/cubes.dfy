/**
 * Boiling boulders (day 18): unit cubes at integer positions, their surface area, and
 * the flood fill of the air around them that counts only the exterior surface.
 *
 * The set of cube positions is kept as a sequence without repeats, in the set's
 * iteration order; `p in cubes` is the set's membership test.
 */
module Cubes {

  import opened Common

  type Pos = (int, int, int)

  /** Face-adjacent positions: exactly one coordinate differs, and by one. */
  predicate Adjacent(p: Pos, q: Pos) {
    Abs(p.0 - q.0) + Abs(p.1 - q.1) + Abs(p.2 - q.2) == 1
  }

  /** `neighbours`: the six face-adjacent positions, along x, then y, then z. */
  function Neighbours(p: Pos): (r: seq<Pos>)
    ensures |r| == 6 && NoRepeats(r)
    ensures forall q :: q in r <==> Adjacent(p, q)
  {
    var (x, y, z) := p;
    var r := [(x - 1, y, z), (x + 1, y, z), (x, y - 1, z), (x, y + 1, z), (x, y, z - 1), (x, y, z + 1)];
    forall q | Adjacent(p, q) ensures q in r {
      if q.0 != x {
        assert q.1 == y && q.2 == z;
        assert q == r[0] || q == r[1];
      } else if q.1 != y {
        assert q.2 == z;
        assert q == r[2] || q == r[3];
      } else {
        assert q == r[4] || q == r[5];
      }
    }
    r
  }

  /** How many of `ns` are not cube positions. */
  function CountOpen(ns: seq<Pos>, cubes: seq<Pos>): (r: nat)
    ensures r <= |ns|
  {
    if |ns| == 0 then 0 else CountOpen(ns[..|ns| - 1], cubes) + (if ns[|ns| - 1] in cubes then 0 else 1)
  }

  /** The faces of the cube at p that do not touch another cube. */
  function ExposedFaces(cubes: seq<Pos>, p: Pos): (r: nat)
    ensures r <= 6
  {
    CountOpen(Neighbours(p), cubes)
  }

  /** `surface_area`: the exposed faces of all the cubes. */
  function SurfaceArea(cubes: seq<Pos>): nat {
    SurfaceAreaOf(cubes, cubes)
  }

  /** The exposed faces of the cubes listed in `some`, against all of `cubes`. */
  function SurfaceAreaOf(some: seq<Pos>, cubes: seq<Pos>): nat {
    if |some| == 0 then 0 else SurfaceAreaOf(some[..|some| - 1], cubes) + ExposedFaces(cubes, some[|some| - 1])
  }

  /** All six faces of a cube are exposed exactly when no cube is adjacent to it. */
  lemma {:induction false} CountOpenAll(ns: seq<Pos>, cubes: seq<Pos>)
    ensures CountOpen(ns, cubes) == |ns| <==> forall i :: 0 <= i < |ns| ==> ns[i] !in cubes
    decreases |ns|
  {
    if |ns| > 0 {
      CountOpenAll(ns[..|ns| - 1], cubes);
      assert forall i :: 0 <= i < |ns| - 1 ==> ns[..|ns| - 1][i] == ns[i];
    }
  }

  lemma ExposedFacesAll(cubes: seq<Pos>, p: Pos)
    ensures ExposedFaces(cubes, p) == 6 <==> forall j :: 0 <= j < |cubes| ==> !Adjacent(p, cubes[j])
  {
    var ns := Neighbours(p);
    CountOpenAll(ns, cubes);
    if ExposedFaces(cubes, p) != 6 {
      var i :| 0 <= i < 6 && ns[i] in cubes;
      var j :| 0 <= j < |cubes| && cubes[j] == ns[i];
      assert Adjacent(p, cubes[j]);
    }
  }

  /** The surface area is at most six faces per cube. */
  lemma {:induction false} SurfaceAreaAtMost(some: seq<Pos>, cubes: seq<Pos>)
    ensures SurfaceAreaOf(some, cubes) <= 6 * |some|
    decreases |some|
  {
    if |some| > 0 {
      SurfaceAreaAtMost(some[..|some| - 1], cubes);
    }
  }

  /**
   * The surface area is six faces per cube exactly when no two cubes touch: every shared
   * face is hidden.
   */
  lemma {:induction false} SurfaceAreaFullIff(some: seq<Pos>, cubes: seq<Pos>)
    ensures SurfaceAreaOf(some, cubes) == 6 * |some| <==>
            forall i, j :: 0 <= i < |some| && 0 <= j < |cubes| ==> !Adjacent(some[i], cubes[j])
    decreases |some|
  {
    if |some| > 0 {
      var init := some[..|some| - 1];
      var last := some[|some| - 1];
      SurfaceAreaFullIff(init, cubes);
      SurfaceAreaAtMost(init, cubes);
      ExposedFacesAll(cubes, last);
      assert forall i :: 0 <= i < |init| ==> init[i] == some[i];
      if SurfaceAreaOf(some, cubes) == 6 * |some| {
        assert ExposedFaces(cubes, last) == 6;
      }
    }
  }

  /** A single cube shows all six faces. */
  lemma SingleCubeArea(p: Pos)
    ensures SurfaceArea([p]) == 6
  {
    forall q | Adjacent(p, q) ensures q != p {}
    SurfaceAreaFullIff([p], [p]);
  }

  /** The box the flood fill explores: the positions from `lo` to `hi` inclusive on each axis. */
  datatype Box = Box(lo: Pos, hi: Pos)

  predicate InBox(b: Box, p: Pos) {
    b.lo.0 <= p.0 <= b.hi.0 && b.lo.1 <= p.1 <= b.hi.1 && b.lo.2 <= p.2 <= b.hi.2
  }

  function Xs(cubes: seq<Pos>): (r: seq<int>)
    ensures |r| == |cubes| && forall i :: 0 <= i < |cubes| ==> r[i] == cubes[i].0
  {
    seq(|cubes|, i requires 0 <= i < |cubes| => cubes[i].0)
  }

  function Ys(cubes: seq<Pos>): (r: seq<int>)
    ensures |r| == |cubes| && forall i :: 0 <= i < |cubes| ==> r[i] == cubes[i].1
  {
    seq(|cubes|, i requires 0 <= i < |cubes| => cubes[i].1)
  }

  function Zs(cubes: seq<Pos>): (r: seq<int>)
    ensures |r| == |cubes| && forall i :: 0 <= i < |cubes| ==> r[i] == cubes[i].2
  {
    seq(|cubes|, i requires 0 <= i < |cubes| => cubes[i].2)
  }

  /**
   * `bounding_box`: one beyond the extreme cube coordinates on every side. The source
   * unwraps the minimum of an empty set, so it demands at least one cube.
   */
  function BoundingBox(cubes: seq<Pos>): (b: Box)
    requires |cubes| > 0
    ensures forall i :: 0 <= i < |cubes| ==> StrictlyInside(b, cubes[i])
  {
    var xs, ys, zs := Xs(cubes), Ys(cubes), Zs(cubes);
    Box((xs[ArgMin(xs)] - 1, ys[ArgMin(ys)] - 1, zs[ArgMin(zs)] - 1),
        (xs[ArgMax(xs)] + 1, ys[ArgMax(ys)] + 1, zs[ArgMax(zs)] + 1))
  }

  predicate StrictlyInside(b: Box, p: Pos) {
    b.lo.0 < p.0 < b.hi.0 && b.lo.1 < p.1 < b.hi.1 && b.lo.2 < p.2 < b.hi.2
  }

  /** Where a sequence attains its smallest value. */
  function ArgMin(xs: seq<int>): (i: nat)
    requires |xs| > 0
    ensures i < |xs| && forall j :: 0 <= j < |xs| ==> xs[i] <= xs[j]
  {
    if |xs| == 1 then 0
    else
      var k := ArgMin(xs[1..]);
      assert forall j :: 1 <= j < |xs| ==> xs[j] == xs[1..][j - 1];
      if xs[0] <= xs[k + 1] then 0 else k + 1
  }

  /** Where a sequence attains its largest value. */
  function ArgMax(xs: seq<int>): (i: nat)
    requires |xs| > 0
    ensures i < |xs| && forall j :: 0 <= j < |xs| ==> xs[j] <= xs[i]
  {
    if |xs| == 1 then 0
    else
      var k := ArgMax(xs[1..]);
      assert forall j :: 1 <= j < |xs| ==> xs[j] == xs[1..][j - 1];
      if xs[0] >= xs[k + 1] then 0 else k + 1
  }

  /** The box is tight: each of its six faces is exactly one away from some cube. */
  lemma BoundingBoxTight(cubes: seq<Pos>)
    requires |cubes| > 0
    ensures var b := BoundingBox(cubes);
      (exists i :: 0 <= i < |cubes| && cubes[i].0 == b.lo.0 + 1) &&
      (exists i :: 0 <= i < |cubes| && cubes[i].0 == b.hi.0 - 1) &&
      (exists i :: 0 <= i < |cubes| && cubes[i].1 == b.lo.1 + 1) &&
      (exists i :: 0 <= i < |cubes| && cubes[i].1 == b.hi.1 - 1) &&
      (exists i :: 0 <= i < |cubes| && cubes[i].2 == b.lo.2 + 1) &&
      (exists i :: 0 <= i < |cubes| && cubes[i].2 == b.hi.2 - 1)
  {
    var xs, ys, zs := Xs(cubes), Ys(cubes), Zs(cubes);
    assert cubes[ArgMin(xs)].0 == xs[ArgMin(xs)];
    assert cubes[ArgMax(xs)].0 == xs[ArgMax(xs)];
    assert cubes[ArgMin(ys)].1 == ys[ArgMin(ys)];
    assert cubes[ArgMax(ys)].1 == ys[ArgMax(ys)];
    assert cubes[ArgMin(zs)].2 == zs[ArgMin(zs)];
    assert cubes[ArgMax(zs)].2 == zs[ArgMax(zs)];
  }

  /** Air inside the box: where the flood fill may go. */
  predicate Open(cubes: seq<Pos>, b: Box, p: Pos) {
    InBox(b, p) && p !in cubes
  }

  /** Every cube lies strictly inside the box. */
  predicate Enclosed(cubes: seq<Pos>, b: Box) {
    forall i :: 0 <= i < |cubes| ==> StrictlyInside(b, cubes[i])
  }

  /** The cubes face-adjacent to p. */
  function TouchingCubes(cubes: seq<Pos>, p: Pos): set<Pos> {
    set q | q in cubes && Adjacent(p, q)
  }

  /** The cube faces that touch the cells of `region`, as (cell, cube) pairs. */
  ghost function Faces(cubes: seq<Pos>, region: set<Pos>): set<(Pos, Pos)> {
    set p, q | p in region && q in cubes && Adjacent(p, q) :: (p, q)
  }

  /** The box corner the flood fill starts from touches no cube. */
  lemma CornerTouchesNothing(cubes: seq<Pos>, b: Box)
    requires Enclosed(cubes, b)
    ensures TouchingCubes(cubes, b.lo) == {}
  {
    forall q | q in cubes ensures !Adjacent(b.lo, q) {
      var i :| 0 <= i < |cubes| && cubes[i] == q;
      assert StrictlyInside(b, q);
    }
  }

  /** Pairing one cell with each of a set of cubes gives as many pairs as cubes. */
  lemma {:induction false} PairsCard(c: Pos, t: set<Pos>)
    ensures |set q | q in t :: (c, q)| == |t|
    decreases |t|
  {
    if t != {} {
      if forall y :: y !in t {
        assert false;
      }
      var x :| x in t;
      var rest := t - {x};
      PairsCard(c, rest);
      assert (set q | q in t :: (c, q)) == (set q | q in rest :: (c, q)) + {(c, x)};
    } else {
      assert (set q | q in t :: (c, q)) == {};
    }
  }

  /** Adding a new cell to a region adds one face per cube it touches. */
  lemma FacesAdd(cubes: seq<Pos>, region: set<Pos>, c: Pos)
    requires c !in region
    ensures |Faces(cubes, region + {c})| == |Faces(cubes, region)| + |TouchingCubes(cubes, c)|
  {
    var t := TouchingCubes(cubes, c);
    var pairs := set q | q in t :: (c, q);
    PairsCard(c, t);
    assert Faces(cubes, region + {c}) == Faces(cubes, region) + pairs;
    assert Faces(cubes, region) * pairs == {};
  }

  /** The neighbours among `ns` inside the box and not yet visited, in order. */
  function Unvisited(b: Box, visited: set<Pos>, ns: seq<Pos>): (r: seq<Pos>)
    ensures forall n :: n in r <==> n in ns && InBox(b, n) && n !in visited
    ensures NoRepeats(ns) ==> NoRepeats(r)
  {
    if |ns| == 0 then []
    else
      var rest := Unvisited(b, visited, ns[1..]);
      assert forall n :: n in ns <==> n == ns[0] || n in ns[1..];
      if InBox(b, ns[0]) && ns[0] !in visited then
        assert NoRepeats(ns) ==> ns[0] !in ns[1..];
        [ns[0]] + rest
      else rest
  }

  /** The cubes among some positions. */
  function CubesAmong(s: seq<Pos>, cubes: seq<Pos>): set<Pos> {
    set n | n in s && n in cubes
  }

  /** The loop invariant of `Visit` after handling `done`, a prefix of the candidates. */
  ghost predicate VisitedSoFar(cubes: seq<Pos>, done: seq<Pos>, stack: seq<Pos>, visited: set<Pos>, area: nat,
                               stack': seq<Pos>, visited': set<Pos>, area': nat) {
    |stack'| >= |stack| && stack'[..|stack|] == stack &&
    (forall n :: n in stack'[|stack|..] <==> n in done && n !in cubes) &&
    NoRepeats(stack'[|stack|..]) &&
    (forall x :: x in visited' <==> x in visited || x in stack'[|stack|..]) &&
    area' == area + |CubesAmong(done, cubes)|
  }

  /** A cube among the candidates adds one face. */
  lemma VisitCube(cubes: seq<Pos>, done: seq<Pos>, n: Pos, stack: seq<Pos>, visited: set<Pos>, area: nat,
                  stack': seq<Pos>, visited': set<Pos>, area': nat)
    requires VisitedSoFar(cubes, done, stack, visited, area, stack', visited', area')
    requires n in cubes && n !in done
    ensures VisitedSoFar(cubes, done + [n], stack, visited, area, stack', visited', area' + 1)
  {
    assert CubesAmong(done + [n], cubes) == CubesAmong(done, cubes) + {n};
  }

  /** An air cell among the candidates is marked visited and pushed. */
  lemma VisitAir(cubes: seq<Pos>, done: seq<Pos>, n: Pos, stack: seq<Pos>, visited: set<Pos>, area: nat,
                 stack': seq<Pos>, visited': set<Pos>, area': nat)
    requires VisitedSoFar(cubes, done, stack, visited, area, stack', visited', area')
    requires n !in cubes && n !in done
    ensures VisitedSoFar(cubes, done + [n], stack, visited, area, stack' + [n], visited' + {n}, area')
  {
    assert CubesAmong(done + [n], cubes) == CubesAmong(done, cubes);
    assert (stack' + [n])[..|stack|] == stack'[..|stack|];
    assert (stack' + [n])[|stack|..] == stack'[|stack|..] + [n];
  }

  /** Once all candidates are handled, the faces counted are those of the cubes touching c. */
  lemma VisitDone(cubes: seq<Pos>, b: Box, c: Pos, visited: set<Pos>)
    requires Enclosed(cubes, b)
    requires forall v :: v in visited ==> v !in cubes
    ensures CubesAmong(Unvisited(b, visited, Neighbours(c)), cubes) == TouchingCubes(cubes, c)
  {
    var next := Unvisited(b, visited, Neighbours(c));
    forall q | q in TouchingCubes(cubes, c) ensures q in CubesAmong(next, cubes) {
      var i :| 0 <= i < |cubes| && cubes[i] == q;
      assert StrictlyInside(b, q);
    }
  }

  /**
   * The body of the flood fill's loop for the popped cell c: every neighbour inside the
   * box and not yet visited is either a cube, whose face is counted, or air, which is
   * marked visited and pushed.
   */
  method Visit(cubes: seq<Pos>, b: Box, c: Pos, stack: seq<Pos>, visited: set<Pos>, area: nat)
    returns (stack': seq<Pos>, visited': set<Pos>, area': nat)
    requires Enclosed(cubes, b)
    requires forall v :: v in visited ==> v !in cubes
    ensures |stack'| >= |stack| && stack'[..|stack|] == stack
    ensures forall n :: n in stack'[|stack|..] <==> Adjacent(c, n) && Open(cubes, b, n) && n !in visited
    ensures NoRepeats(stack'[|stack|..])
    ensures forall x :: x in visited' <==> x in visited || x in stack'[|stack|..]
    ensures area' == area + |TouchingCubes(cubes, c)|
  {
    var next := Unvisited(b, visited, Neighbours(c));
    stack', visited', area' := stack, visited, area;
    assert stack'[|stack|..] == [];
    for k := 0 to |next|
      invariant VisitedSoFar(cubes, next[..k], stack, visited, area, stack', visited', area')
    {
      var n := next[k];
      assert next[..k + 1] == next[..k] + [n];
      if n in cubes {
        VisitCube(cubes, next[..k], n, stack, visited, area, stack', visited', area');
        area' := area' + 1;
      } else {
        VisitAir(cubes, next[..k], n, stack, visited, area, stack', visited', area');
        visited' := visited' + {n};
        stack' := stack' + [n];
      }
    }
    assert next[..|next|] == next;
    VisitDone(cubes, b, c, visited);
  }

  /** A walk through air inside the box, one face step at a time. */
  ghost predicate AirWalk(cubes: seq<Pos>, b: Box, w: seq<Pos>) {
    |w| > 0 &&
    (forall i :: 0 <= i < |w| ==> Open(cubes, b, w[i])) &&
    (forall i :: 0 < i < |w| ==> Adjacent(w[i - 1], w[i]))
  }

  /** The air cells the steam can reach from the box corner. */
  ghost predicate Reachable(cubes: seq<Pos>, b: Box, v: Pos) {
    exists w :: AirWalk(cubes, b, w) && w[0] == b.lo && w[|w| - 1] == v
  }

  /** The cells of the box. */
  function BoxCells(b: Box): set<Pos> {
    set x, y, z | b.lo.0 <= x <= b.hi.0 && b.lo.1 <= y <= b.hi.1 && b.lo.2 <= z <= b.hi.2 :: (x, y, z)
  }

  /** Where each visited cell was discovered from: the corner (-1) or an earlier visited cell. */
  function ParentCell(b: Box, order: seq<Pos>, p: int): Pos
    requires p < |order|
  {
    if p < 0 then b.lo else order[p]
  }

  /** Every cell in `order` is air, discovered from the corner or from an earlier cell. */
  ghost predicate Linked(cubes: seq<Pos>, b: Box, order: seq<Pos>, parent: seq<int>) {
    |parent| == |order| &&
    forall i :: 0 <= i < |order| ==>
      Open(cubes, b, order[i]) && -1 <= parent[i] < i && Adjacent(ParentCell(b, order, parent[i]), order[i])
  }

  /** The visited cells: air, listed in discovery order, each linked to its discoverer. */
  ghost predicate Marked(cubes: seq<Pos>, b: Box, visited: set<Pos>, order: seq<Pos>, parent: seq<int>) {
    (forall x :: x in order <==> x in visited) && Linked(cubes, b, order, parent)
  }

  /**
   * The stack and the processed cells: apart from the corner, which may be pushed a
   * second time, every stacked cell is visited, stacked once and not yet processed; every
   * visited cell is processed or stacked.
   */
  ghost predicate Pending(b: Box, stack: seq<Pos>, visited: set<Pos>, processed: set<Pos>) {
    (forall i :: 0 <= i < |stack| && stack[i] != b.lo ==> stack[i] in visited && stack[i] !in processed) &&
    (forall i, j :: 0 <= i < j < |stack| && stack[i] != b.lo ==> stack[i] != stack[j]) &&
    (forall x :: x in processed ==> x == b.lo || x in visited) &&
    (forall x :: x in visited ==> x in processed || x in stack) &&
    (b.lo in processed || b.lo in stack)
  }

  /** Every in-box neighbour of a processed cell is a cube or visited. */
  ghost predicate ClosedSoFar(cubes: seq<Pos>, b: Box, visited: set<Pos>, processed: set<Pos>) {
    forall p, n :: p in processed && Adjacent(p, n) && InBox(b, n) ==> n in cubes || n in visited
  }

  /** What one `Visit` of c did: `pushed` is exactly the new air neighbours of c. */
  ghost predicate Pushed(cubes: seq<Pos>, b: Box, c: Pos, visited: set<Pos>, pushed: seq<Pos>, visited': set<Pos>) {
    (forall n :: n in pushed <==> Adjacent(c, n) && Open(cubes, b, n) && n !in visited) &&
    NoRepeats(pushed) &&
    (forall x :: x in visited' <==> x in visited || x in pushed)
  }

  lemma MarkedStep(cubes: seq<Pos>, b: Box, visited: set<Pos>, order: seq<Pos>, parent: seq<int>,
                   c: Pos, pc: int, pushed: seq<Pos>, visited': set<Pos>)
    requires Marked(cubes, b, visited, order, parent)
    requires -1 <= pc < |order| && ParentCell(b, order, pc) == c
    requires Pushed(cubes, b, c, visited, pushed, visited')
    ensures Marked(cubes, b, visited', order + pushed, parent + seq(|pushed|, _ => pc))
  {
    var order', parent' := order + pushed, parent + seq(|pushed|, _ => pc);
    forall i | 0 <= i < |order'|
      ensures Open(cubes, b, order'[i]) && -1 <= parent'[i] < i && Adjacent(ParentCell(b, order', parent'[i]), order'[i])
    {
      if i < |order| {
        assert order'[i] == order[i] && parent'[i] == parent[i];
        assert ParentCell(b, order', parent[i]) == ParentCell(b, order, parent[i]);
      } else {
        assert order'[i] == pushed[i - |order|] && parent'[i] == pc;
        assert pushed[i - |order|] in pushed;
        assert ParentCell(b, order', pc) == c;
      }
    }
  }

  lemma PendingStep(b: Box, stack: seq<Pos>, visited: set<Pos>, processed: set<Pos>,
                    pushed: seq<Pos>, visited': set<Pos>)
    requires |stack| > 0 && Pending(b, stack, visited, processed)
    requires NoRepeats(pushed) && forall n :: n in pushed ==> n !in visited && n != stack[|stack| - 1]
    requires forall x :: x in visited' <==> x in visited || x in pushed
    ensures Pending(b, stack[..|stack| - 1] + pushed, visited', processed + {stack[|stack| - 1]})
  {
    var c := stack[|stack| - 1];
    var rest := stack[..|stack| - 1];
    var stack' := rest + pushed;
    var processed' := processed + {c};
    forall i | 0 <= i < |stack'| && stack'[i] != b.lo
      ensures stack'[i] in visited' && stack'[i] !in processed'
    {
      if i < |rest| {
        assert stack'[i] == stack[i];
        assert stack[i] != stack[|stack| - 1];
      } else {
        assert stack'[i] in pushed;
      }
    }
    forall i, j | 0 <= i < j < |stack'| && stack'[i] != b.lo ensures stack'[i] != stack'[j] {
      if j < |rest| {
        assert stack'[i] == stack[i] && stack'[j] == stack[j];
      } else if i < |rest| {
        assert stack'[i] == stack[i] && stack[i] in visited;
        assert stack'[j] in pushed;
      } else {
        assert stack'[i] == pushed[i - |rest|] && stack'[j] == pushed[j - |rest|];
      }
    }
    forall x | x in visited' ensures x in processed' || x in stack' {
      if x in visited {
        if x !in processed && x != c {
          var k :| 0 <= k < |stack| && stack[k] == x;
          assert x == rest[k];
        }
      }
    }
    if b.lo !in processed' {
      var k :| 0 <= k < |stack| && stack[k] == b.lo;
      assert b.lo == rest[k];
    }
  }

  lemma ClosedStep(cubes: seq<Pos>, b: Box, visited: set<Pos>, processed: set<Pos>,
                   c: Pos, pushed: seq<Pos>, visited': set<Pos>)
    requires ClosedSoFar(cubes, b, visited, processed)
    requires Pushed(cubes, b, c, visited, pushed, visited')
    ensures ClosedSoFar(cubes, b, visited', processed + {c})
  {
  }

  /** A sequence without repeats has as many distinct elements as entries. */
  lemma {:induction false} SeqSetCard(s: seq<Pos>)
    requires NoRepeats(s)
    ensures |set n | n in s| == |s|
    decreases |s|
  {
    if |s| > 0 {
      var init := s[..|s| - 1];
      SeqSetCard(init);
      assert s[|s| - 1] !in init;
      assert (set n | n in s) == (set n | n in init) + {s[|s| - 1]};
    } else {
      assert (set n | n in s) == {};
    }
  }

  /** Marking new cells of the box visited shrinks its unvisited part by as many cells. */
  lemma RemainingShrinks(b: Box, visited: set<Pos>, added: set<Pos>)
    requires forall n :: n in added ==> InBox(b, n) && n !in visited
    ensures |BoxCells(b) - (visited + added)| + |added| == |BoxCells(b) - visited|
  {
    var rest := BoxCells(b) - (visited + added);
    forall n | n in added ensures n in BoxCells(b) {
      assert n == (n.0, n.1, n.2);
    }
    assert rest * added == {};
    assert rest + added == BoxCells(b) - visited;
  }

  /** Every cell of a linked discovery order is reachable from the corner through air. */
  lemma {:induction false} LinkedReachable(cubes: seq<Pos>, b: Box, order: seq<Pos>, parent: seq<int>, i: nat)
    requires Linked(cubes, b, order, parent) && Open(cubes, b, b.lo) && i < |order|
    ensures Reachable(cubes, b, order[i])
    decreases i
  {
    var pc := parent[i];
    var w: seq<Pos>;
    if pc < 0 {
      w := [b.lo];
      assert AirWalk(cubes, b, w);
    } else {
      LinkedReachable(cubes, b, order, parent, pc);
      w :| AirWalk(cubes, b, w) && w[0] == b.lo && w[|w| - 1] == order[pc];
    }
    var w' := w + [order[i]];
    assert AirWalk(cubes, b, w');
  }

  /** The state of the flood fill between two pops. */
  ghost predicate Filling(cubes: seq<Pos>, b: Box, stack: seq<Pos>, visited: set<Pos>, area: nat,
                          processed: set<Pos>, order: seq<Pos>, parent: seq<int>) {
    Marked(cubes, b, visited, order, parent) && Pending(b, stack, visited, processed) &&
    ClosedSoFar(cubes, b, visited, processed) && area == |Faces(cubes, processed)|
  }

  /** The top of the stack was discovered from a known cell, and no visited cell is a cube. */
  lemma FillTop(cubes: seq<Pos>, b: Box, stack: seq<Pos>, visited: set<Pos>, area: nat,
                processed: set<Pos>, order: seq<Pos>, parent: seq<int>)
    requires |stack| > 0 && Filling(cubes, b, stack, visited, area, processed, order, parent)
    ensures exists pc :: -1 <= pc < |order| && ParentCell(b, order, pc) == stack[|stack| - 1]
    ensures forall v :: v in visited ==> v !in cubes
  {
    var c := stack[|stack| - 1];
    if c == b.lo {
      assert ParentCell(b, order, -1) == c;
    } else {
      assert c in visited;
      var pc :| 0 <= pc < |order| && order[pc] == c;
      assert ParentCell(b, order, pc) == c;
    }
  }

  /** One pop and `Visit` keeps the flood fill's invariant and shrinks its measure. */
  lemma FillStep(cubes: seq<Pos>, b: Box, stack: seq<Pos>, c: Pos, pc: int, visited: set<Pos>, area: nat,
                 processed: set<Pos>, order: seq<Pos>, parent: seq<int>,
                 stack': seq<Pos>, visited': set<Pos>, area': nat)
    requires Enclosed(cubes, b) && TouchingCubes(cubes, b.lo) == {}
    requires |stack| > 0 && c == stack[|stack| - 1]
    requires Filling(cubes, b, stack, visited, area, processed, order, parent)
    requires -1 <= pc < |order| && ParentCell(b, order, pc) == c
    requires |stack'| >= |stack| - 1 && stack'[..|stack| - 1] == stack[..|stack| - 1]
    requires forall n :: n in stack'[|stack| - 1..] <==> Adjacent(c, n) && Open(cubes, b, n) && n !in visited
    requires NoRepeats(stack'[|stack| - 1..])
    requires forall x :: x in visited' <==> x in visited || x in stack'[|stack| - 1..]
    requires area' == area + |TouchingCubes(cubes, c)|
    ensures var pushed := stack'[|stack| - 1..];
      Filling(cubes, b, stack', visited', area', processed + {c}, order + pushed, parent + seq(|pushed|, _ => pc))
    ensures |BoxCells(b) - visited'| + |stack'| < |BoxCells(b) - visited| + |stack|
  {
    var before := stack[..|stack| - 1];
    var pushed := stack'[|before|..];
    assert stack' == before + pushed;
    assert stack == before + [c];
    assert forall n :: n in pushed ==> n != c by {
      forall n | n in pushed ensures n != c { assert Adjacent(c, n); }
    }
    MarkedStep(cubes, b, visited, order, parent, c, pc, pushed, visited');
    PendingStep(b, stack, visited, processed, pushed, visited');
    ClosedStep(cubes, b, visited, processed, c, pushed, visited');
    var added := set n | n in pushed;
    assert visited' == visited + added;
    RemainingShrinks(b, visited, added);
    SeqSetCard(pushed);
    if c !in processed {
      FacesAdd(cubes, processed, c);
    } else {
      assert stack[|stack| - 1] == b.lo;
      AddPresent(processed, c);
    }
  }

  lemma AddPresent(s: set<Pos>, x: Pos)
    requires x in s
    ensures s + {x} == s
  {
  }

  /** Reference definition: the air of the box the steam reaches from the corner. */
  ghost function ExteriorAir(cubes: seq<Pos>, b: Box): set<Pos> {
    set p | p in BoxCells(b) && Open(cubes, b, p) && Reachable(cubes, b, p)
  }

  /** A region containing the corner that no air step leaves. */
  ghost predicate ClosedRegion(cubes: seq<Pos>, b: Box, region: set<Pos>) {
    b.lo in region &&
    forall p, n :: p in region && Adjacent(p, n) && InBox(b, n) ==> n in cubes || n in region
  }

  /** Every walk through air from the corner stays inside a closed region. */
  lemma {:induction false} WalkStaysInside(cubes: seq<Pos>, b: Box, region: set<Pos>, w: seq<Pos>, i: nat)
    requires ClosedRegion(cubes, b, region)
    requires AirWalk(cubes, b, w) && w[0] == b.lo && i < |w|
    ensures w[i] in region
    decreases i
  {
    if i > 0 {
      WalkStaysInside(cubes, b, region, w, i - 1);
      assert Adjacent(w[i - 1], w[i]) && Open(cubes, b, w[i]);
    }
  }

  /** A closed region of reachable air is exactly the reachable air. */
  lemma ClosedRegionIsExteriorAir(cubes: seq<Pos>, b: Box, region: set<Pos>)
    requires ClosedRegion(cubes, b, region)
    requires forall v :: v in region ==> Open(cubes, b, v) && Reachable(cubes, b, v)
    ensures region == ExteriorAir(cubes, b)
  {
    forall p | p in ExteriorAir(cubes, b) ensures p in region {
      var w :| AirWalk(cubes, b, w) && w[0] == b.lo && w[|w| - 1] == p;
      WalkStaysInside(cubes, b, region, w, |w| - 1);
    }
    forall p | p in region ensures p in ExteriorAir(cubes, b) {
      assert p == (p.0, p.1, p.2);
    }
  }

  /** One round of the flood fill: pop a cell and visit it. */
  method FillOnce(cubes: seq<Pos>, b: Box, stack: seq<Pos>, visited: set<Pos>, area: nat,
                  ghost processed: set<Pos>, ghost order: seq<Pos>, ghost parent: seq<int>)
    returns (stack': seq<Pos>, visited': set<Pos>, area': nat,
             ghost processed': set<Pos>, ghost order': seq<Pos>, ghost parent': seq<int>)
    requires Enclosed(cubes, b) && TouchingCubes(cubes, b.lo) == {}
    requires |stack| > 0 && Filling(cubes, b, stack, visited, area, processed, order, parent)
    ensures Filling(cubes, b, stack', visited', area', processed', order', parent')
    ensures |BoxCells(b) - visited'| + |stack'| < |BoxCells(b) - visited| + |stack|
  {
    var c := stack[|stack| - 1];
    FillTop(cubes, b, stack, visited, area, processed, order, parent);
    ghost var pc :| -1 <= pc < |order| && ParentCell(b, order, pc) == c;
    stack', visited', area' := Visit(cubes, b, c, stack[..|stack| - 1], visited, area);
    FillStep(cubes, b, stack, c, pc, visited, area, processed, order, parent, stack', visited', area');
    ghost var pushed := stack'[|stack| - 1..];
    processed', order', parent' := processed + {c}, order + pushed, parent + seq(|pushed|, _ => pc);
  }

  /** The flood fill starts with the corner alone on the stack and nothing visited. */
  lemma FillStart(cubes: seq<Pos>, b: Box)
    requires |cubes| > 0 && Enclosed(cubes, b)
    ensures Open(cubes, b, b.lo) && TouchingCubes(cubes, b.lo) == {}
    ensures Filling(cubes, b, [b.lo], {}, 0, {}, [], [])
  {
    CornerTouchesNothing(cubes, b);
    assert StrictlyInside(b, cubes[0]);
    forall i | 0 <= i < |cubes| ensures cubes[i] != b.lo {
      assert StrictlyInside(b, cubes[i]);
    }
    assert Faces(cubes, {}) == {};
  }

  /** When the stack is empty, the corner and the visited cells form a closed region of reachable air. */
  lemma FillDone(cubes: seq<Pos>, b: Box, visited: set<Pos>, area: nat, processed: set<Pos>, order: seq<Pos>, parent: seq<int>)
    requires Open(cubes, b, b.lo)
    requires Filling(cubes, b, [], visited, area, processed, order, parent)
    ensures forall v :: v in visited ==> Open(cubes, b, v) && Reachable(cubes, b, v)
    ensures forall p, n :: (p == b.lo || p in visited) && Adjacent(p, n) && InBox(b, n) ==> n in cubes || n in visited
    ensures area == |Faces(cubes, visited + {b.lo})|
    ensures visited + {b.lo} == ExteriorAir(cubes, b)
  {
    assert processed == visited + {b.lo};
    forall v | v in visited ensures Open(cubes, b, v) && Reachable(cubes, b, v) {
      var i :| 0 <= i < |order| && order[i] == v;
      LinkedReachable(cubes, b, order, parent, i);
    }
    assert Reachable(cubes, b, b.lo) by {
      assert AirWalk(cubes, b, [b.lo]);
    }
    ClosedRegionIsExteriorAir(cubes, b, visited + {b.lo});
  }

  /**
   * `exterior_surface_area`: a flood fill of the air in the bounding box from its low
   * corner, counting every cube face the air touches. Besides the count, the model
   * returns the set of visited cells.
   */
  method ExteriorSurfaceArea(cubes: seq<Pos>) returns (area: nat, visited: set<Pos>)
    requires |cubes| > 0
    ensures forall v :: v in visited ==> Open(cubes, BoundingBox(cubes), v)
    ensures forall v :: v in visited ==> Reachable(cubes, BoundingBox(cubes), v)
    ensures forall p, n :: (p == BoundingBox(cubes).lo || p in visited) && Adjacent(p, n) && InBox(BoundingBox(cubes), n) ==>
              n in cubes || n in visited
    ensures area == |Faces(cubes, visited + {BoundingBox(cubes).lo})|
    ensures visited + {BoundingBox(cubes).lo} == ExteriorAir(cubes, BoundingBox(cubes))
    ensures area == |Faces(cubes, ExteriorAir(cubes, BoundingBox(cubes)))|
  {
    var b := BoundingBox(cubes);
    FillStart(cubes, b);
    var stack := [b.lo];
    visited, area := {}, 0;
    ghost var processed: set<Pos> := {};
    ghost var order: seq<Pos> := [];
    ghost var parent: seq<int> := [];
    while |stack| > 0
      invariant Filling(cubes, b, stack, visited, area, processed, order, parent)
      decreases |BoxCells(b) - visited| + |stack|
    {
      stack, visited, area, processed, order, parent := FillOnce(cubes, b, stack, visited, area, processed, order, parent);
    }
    FillDone(cubes, b, visited, area, processed, order, parent);
  }
}
