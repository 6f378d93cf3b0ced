/**
 * Hill climbing (day 12): a grid of elevations, the cells one step away that a climber
 * may come from, and the breadth-first search that labels every cell with its distance
 * from a start cell. The search runs backwards from the goal, so a step from `from` to
 * `to` is allowed when `to` is at most one higher than `from`, and the neighbours of a
 * cell are the cells it can be reached from. Cells are (row, column).
 */
module Hills {

  import opened Common

  type Coord = (nat, nat)

  /** `elevation`: a..z are 0..25, S is 0 and E is 25; anything else is a panic, modelled as None. */
  function Elevation(c: char): (r: Option<nat>)
    ensures r.Some? <==> ('a' <= c <= 'z' || c == 'S' || c == 'E')
    ensures r.Some? ==> r.value <= 25
    ensures c == 'S' ==> r == Some(0)
    ensures c == 'E' ==> r == Some(25)
  {
    if 'a' <= c <= 'z' then Some(c as int - 'a' as int)
    else if c == 'S' then Some(0)
    else if c == 'E' then Some(25)
    else None
  }

  /** The lower-case letter standing for an elevation. */
  function ElevationLetter(e: nat): (c: char)
    requires e <= 25
    ensures 'a' <= c <= 'z'
  {
    ('a' as int + e) as char
  }

  /** Letters and elevations correspond one to one. */
  lemma ElevationLetterRoundTrip(e: nat, c: char)
    requires e <= 25
    ensures Elevation(ElevationLetter(e)) == Some(e)
    ensures 'a' <= c <= 'z' ==> ElevationLetter(Elevation(c).value) == c
  {
  }

  type Grid = seq<seq<nat>>

  predicate InGrid(elev: Grid, c: Coord) {
    c.0 < |elev| && c.1 < |elev[c.0]|
  }

  function Height(elev: Grid, c: Coord): nat
    requires InGrid(elev, c)
  {
    elev[c.0][c.1]
  }

  /** Orthogonally adjacent cells. */
  predicate Adjacent(a: Coord, b: Coord) {
    (a.0 == b.0 && (a.1 + 1 == b.1 || b.1 + 1 == a.1)) ||
    (a.1 == b.1 && (a.0 + 1 == b.0 || b.0 + 1 == a.0))
  }

  /** `to` is in the grid and at most one lower than `from`: a climber could go from `to` to `from`. */
  predicate ClimbOk(elev: Grid, from: Coord, to: Coord)
    requires InGrid(elev, from)
  {
    InGrid(elev, to) && Height(elev, from) <= Height(elev, to) + 1
  }

  /** One step of the backwards search: from `from` to an adjacent `to` that a climber could have come from. */
  predicate Step(elev: Grid, from: Coord, to: Coord) {
    InGrid(elev, from) && Adjacent(from, to) && ClimbOk(elev, from, to)
  }

  /** The four cells tried, in order: above, below, left, right; a coordinate below zero does not exist. */
  function Candidates(c: Coord): seq<Option<Coord>> {
    [if c.0 == 0 then None else Some((c.0 - 1, c.1)), Some((c.0 + 1, c.1)),
     if c.1 == 0 then None else Some((c.0, c.1 - 1)), Some((c.0, c.1 + 1))]
  }

  /** The candidates that exist, are in the grid and pass the elevation rule, in order. */
  function Keep(elev: Grid, c: Coord, cands: seq<Option<Coord>>): (r: seq<Coord>)
    requires InGrid(elev, c)
    ensures |r| <= |cands|
    ensures forall n :: n in r <==> Some(n) in cands && ClimbOk(elev, c, n)
  {
    if |cands| == 0 then []
    else
      var rest := Keep(elev, c, cands[1..]);
      assert forall x :: x in cands <==> x == cands[0] || x in cands[1..];
      match cands[0]
      case None => rest
      case Some(n) =>
        if ClimbOk(elev, c, n) then [n] + rest else rest
  }

  /**
   * `neighbours`: exactly the in-grid orthogonal cells whose elevation plus one is at
   * least the current cell's, each once.
   */
  function Neighbours(elev: Grid, c: Coord): (r: seq<Coord>)
    requires InGrid(elev, c)
    ensures |r| <= 4
    ensures forall n :: n in r <==> Step(elev, c, n)
    ensures NoRepeats(r)
  {
    var cands := Candidates(c);
    var r := Keep(elev, c, cands);
    assert forall x :: Some(x) in cands ==> Adjacent(c, x);
    forall n | Step(elev, c, n) ensures Some(n) in cands {
      if n.0 + 1 == c.0 { assert cands[0] == Some(n); }
      else if c.0 + 1 == n.0 { assert cands[1] == Some(n); }
      else if n.1 + 1 == c.1 { assert cands[2] == Some(n); }
      else { assert cands[3] == Some(n); }
    }
    assert forall i, j :: 0 <= i < j < |cands| && cands[i].Some? ==> cands[i] != cands[j];
    KeepDistinct(elev, c, cands);
    r
  }

  /** The four candidates are pairwise different, so nothing is kept twice. */
  lemma {:induction false} KeepDistinct(elev: Grid, c: Coord, cands: seq<Option<Coord>>)
    requires InGrid(elev, c)
    requires forall i, j :: 0 <= i < j < |cands| && cands[i].Some? ==> cands[i] != cands[j]
    ensures NoRepeats(Keep(elev, c, cands))
    decreases |cands|
  {
    if |cands| > 0 {
      KeepDistinct(elev, c, cands[1..]);
      var rest := Keep(elev, c, cands[1..]);
      if cands[0].Some? && ClimbOk(elev, c, cands[0].value) {
        var n := cands[0].value;
        var r := [n] + rest;
        assert Keep(elev, c, cands) == r;
        forall i, j | 0 <= i < j < |r| ensures r[i] != r[j] {
          assert r[j] == rest[j - 1];
          assert rest[j - 1] in rest;
          if i > 0 {
            assert r[i] == rest[i - 1];
            assert rest[i - 1] != rest[j - 1];
          }
        }
      } else {
        assert Keep(elev, c, cands) == rest;
      }
    }
  }

  /** The distance table: one entry per cell, None while undiscovered. */
  type Distances = seq<seq<Option<nat>>>

  predicate Shaped(dist: Distances, elev: Grid) {
    |dist| == |elev| && forall r :: 0 <= r < |elev| ==> |dist[r]| == |elev[r]|
  }

  /** The entry for a cell; None outside the table. */
  function Get(dist: Distances, c: Coord): Option<nat> {
    if c.0 < |dist| && c.1 < |dist[c.0]| then dist[c.0][c.1] else None
  }

  function Val(dist: Distances, c: Coord): nat {
    if Get(dist, c).Some? then Get(dist, c).value else 0
  }

  function Assign(dist: Distances, c: Coord, v: nat): Distances
    requires c.0 < |dist| && c.1 < |dist[c.0]|
  {
    dist[c.0 := dist[c.0][c.1 := Some(v)]]
  }

  lemma AssignEffect(dist: Distances, c: Coord, v: nat)
    requires c.0 < |dist| && c.1 < |dist[c.0]|
    ensures Get(Assign(dist, c, v), c) == Some(v)
    ensures forall x :: x != c ==> Get(Assign(dist, c, v), x) == Get(dist, x)
  {
  }

  /** Entries once set never change. */
  ghost predicate Extends(dist: Distances, dist': Distances) {
    |dist'| == |dist| && (forall r :: 0 <= r < |dist| ==> |dist'[r]| == |dist[r]|) &&
    forall x :: Get(dist, x).Some? ==> Get(dist', x) == Get(dist, x)
  }

  /** The number of undiscovered cells. */
  function Unknown(dist: Distances): nat {
    if |dist| == 0 then 0 else Unknown(dist[..|dist| - 1]) + UnknownIn(dist[|dist| - 1])
  }

  function UnknownIn(row: seq<Option<nat>>): nat {
    if |row| == 0 then 0 else UnknownIn(row[..|row| - 1]) + (if row[|row| - 1].None? then 1 else 0)
  }

  lemma {:induction false} UnknownInUpdate(row: seq<Option<nat>>, i: nat, v: nat)
    requires i < |row| && row[i].None?
    ensures UnknownIn(row[i := Some(v)]) + 1 == UnknownIn(row)
    decreases |row|
  {
    var n := |row|;
    if i < n - 1 {
      assert row[i := Some(v)][..n - 1] == row[..n - 1][i := Some(v)];
      UnknownInUpdate(row[..n - 1], i, v);
    } else {
      assert row[i := Some(v)][..n - 1] == row[..n - 1];
    }
  }

  lemma {:induction false} UnknownUpdate(dist: Distances, c: Coord, v: nat)
    requires c.0 < |dist| && c.1 < |dist[c.0]| && dist[c.0][c.1].None?
    ensures Unknown(Assign(dist, c, v)) + 1 == Unknown(dist)
    decreases |dist|
  {
    var n := |dist|;
    var row := dist[c.0][c.1 := Some(v)];
    if c.0 < n - 1 {
      assert Assign(dist, c, v)[..n - 1] == Assign(dist[..n - 1], c, v);
      UnknownUpdate(dist[..n - 1], c, v);
    } else {
      assert Assign(dist, c, v)[..n - 1] == dist[..n - 1];
      UnknownInUpdate(dist[c.0], c.1, v);
    }
  }

  /**
   * The inner loop of `calculate_minimum_distances`: every undiscovered cell among `ns`
   * gets distance d + 1 and joins the back of the queue; discovered cells are left alone.
   */
  method Discover(dist: Distances, order: seq<Coord>, ns: seq<Coord>, d: nat) returns (dist': Distances, order': seq<Coord>)
    requires forall i :: 0 <= i < |ns| ==> ns[i].0 < |dist| && ns[i].1 < |dist[ns[i].0]|
    ensures Extends(dist, dist')
    ensures |order'| >= |order| && order'[..|order|] == order
    ensures forall i :: |order| <= i < |order'| ==> order'[i] in ns && Get(dist, order'[i]).None? && Get(dist', order'[i]) == Some(d + 1)
    ensures forall i :: 0 <= i < |ns| ==> Get(dist', ns[i]).Some?
    ensures forall x :: Get(dist, x).None? && Get(dist', x).Some? ==> x in order'[|order|..]
    ensures Unknown(dist') + (|order'| - |order|) == Unknown(dist)
  {
    dist', order' := dist, order;
    for k := 0 to |ns|
      invariant DiscoveredSoFar(dist, order, ns[..k], d, dist', order')
      invariant Extends(dist, dist')
    {
      var n := ns[k];
      if dist'[n.0][n.1].None? {
        DiscoverOne(dist, order, ns[..k], d, dist', order', n);
        dist', order' := Assign(dist', n, d + 1), order' + [n];
      } else {
        DiscoverKnown(dist, order, ns[..k], d, dist', order', n);
      }
      assert ns[..k + 1] == ns[..k] + [n];
    }
    assert ns[..|ns|] == ns;
  }

  /** The postcondition of `Discover` for the neighbours `done` handled so far. */
  ghost predicate DiscoveredSoFar(dist: Distances, order: seq<Coord>, done: seq<Coord>, d: nat, dist': Distances, order': seq<Coord>) {
    |dist'| == |dist| && (forall r :: 0 <= r < |dist| ==> |dist'[r]| == |dist[r]|) &&
    |order'| >= |order| && order'[..|order|] == order &&
    (forall i :: |order| <= i < |order'| ==> order'[i] in done && Get(dist, order'[i]).None? && Get(dist', order'[i]) == Some(d + 1)) &&
    (forall i :: 0 <= i < |done| ==> Get(dist', done[i]).Some?) &&
    (forall x :: Get(dist, x).None? && Get(dist', x).Some? ==> x in order'[|order|..]) &&
    Unknown(dist') + (|order'| - |order|) == Unknown(dist)
  }

  /** Discovering a new cell n keeps the invariant with n handled. */
  lemma DiscoverOne(dist: Distances, order: seq<Coord>, done: seq<Coord>, d: nat, dist': Distances, order': seq<Coord>, n: Coord)
    requires DiscoveredSoFar(dist, order, done, d, dist', order') && Extends(dist, dist')
    requires n.0 < |dist'| && n.1 < |dist'[n.0]| && dist'[n.0][n.1].None?
    ensures DiscoveredSoFar(dist, order, done + [n], d, Assign(dist', n, d + 1), order' + [n])
    ensures Extends(dist, Assign(dist', n, d + 1))
  {
    var dist'' := Assign(dist', n, d + 1);
    var order'' := order' + [n];
    AssignEffect(dist', n, d + 1);
    UnknownUpdate(dist', n, d + 1);
    assert order''[..|order|] == order'[..|order|];
    assert order''[|order|..] == order'[|order|..] + [n];
    forall i | |order| <= i < |order''|
      ensures order''[i] in done + [n] && Get(dist, order''[i]).None? && Get(dist'', order''[i]) == Some(d + 1)
    {
      if i < |order'| {
        assert order''[i] == order'[i] != n;
      }
    }
    forall i | 0 <= i < |done + [n]| ensures Get(dist'', (done + [n])[i]).Some? {
      if i < |done| {
        assert Get(dist', done[i]).Some?;
      }
    }
  }

  /** A cell already discovered is left alone. */
  lemma DiscoverKnown(dist: Distances, order: seq<Coord>, done: seq<Coord>, d: nat, dist': Distances, order': seq<Coord>, n: Coord)
    requires DiscoveredSoFar(dist, order, done, d, dist', order')
    requires n.0 < |dist'| && n.1 < |dist'[n.0]| && dist'[n.0][n.1].Some?
    ensures DiscoveredSoFar(dist, order, done + [n], d, dist', order')
  {
    forall i | |order| <= i < |order'| ensures order'[i] in done + [n] {
      assert order'[i] in done;
    }
    forall i | 0 <= i < |done + [n]| ensures Get(dist', (done + [n])[i]).Some? {
      if i < |done| {
        assert (done + [n])[i] == done[i];
      }
    }
  }

  /** Processing one cell of the queue: discover its neighbours one further away. */
  method Expand(elev: Grid, dist: Distances, order: seq<Coord>, cur: Coord) returns (dist': Distances, order': seq<Coord>)
    requires InGrid(elev, cur) && Shaped(dist, elev)
    ensures Grown(elev, dist, order, cur, dist', order')
    ensures Unknown(dist') + (|order'| - |order|) == Unknown(dist)
  {
    var ns := Neighbours(elev, cur);
    var d := if dist[cur.0][cur.1].Some? then dist[cur.0][cur.1].value else 0;
    assert forall i :: 0 <= i < |ns| ==> ns[i] in ns && InGrid(elev, ns[i]);
    dist', order' := Discover(dist, order, ns, d);
  }

  /** Every discovered cell other than the start was discovered from a cell one closer. */
  ghost predicate Discovered(elev: Grid, start: Coord, dist: Distances) {
    forall c {:trigger Val(dist, c)} :: Get(dist, c).Some? && c != start ==>
      Val(dist, c) > 0 && exists p :: Step(elev, p, c) && Get(dist, p) == Some(Val(dist, c) - 1)
  }

  /** Every cell reachable in one step from a discovered cell is discovered, at most one further. */
  ghost predicate Closed(elev: Grid, dist: Distances) {
    forall p, c :: Get(dist, p).Some? && Step(elev, p, c) ==> Get(dist, c).Some? && Val(dist, c) <= Val(dist, p) + 1
  }

  /** `order` lists exactly the discovered cells, all inside the grid. */
  ghost predicate Listed(elev: Grid, dist: Distances, order: seq<Coord>) {
    (forall i :: 0 <= i < |order| ==> InGrid(elev, order[i]) && Get(dist, order[i]).Some?) &&
    (forall x :: Get(dist, x).Some? ==> x in order)
  }

  /** Distances never decrease along `order`. */
  ghost predicate Ascending(dist: Distances, order: seq<Coord>) {
    forall i, j :: 0 <= i < j < |order| ==> Val(dist, order[i]) <= Val(dist, order[j])
  }

  /** The cells still queued span at most two consecutive distances. */
  ghost predicate Span(dist: Distances, order: seq<Coord>, head: nat) {
    head < |order| ==> Val(dist, order[|order| - 1]) <= Val(dist, order[head]) + 1
  }

  /** Everything one step from a processed cell is discovered, at most one further. */
  ghost predicate ProcessedClosed(elev: Grid, dist: Distances, order: seq<Coord>, head: nat) {
    forall i, c :: 0 <= i < head && i < |order| && Step(elev, order[i], c) ==>
      Get(dist, c).Some? && Val(dist, c) <= Val(dist, order[i]) + 1
  }

  /** The search so far: `order` lists the discovered cells in discovery order, the first `head` processed. */
  ghost predicate Searching(elev: Grid, start: Coord, dist: Distances, order: seq<Coord>, head: nat) {
    Shaped(dist, elev) && Get(dist, start) == Some(0) && head <= |order| &&
    Listed(elev, dist, order) && Ascending(dist, order) && Span(dist, order, head) &&
    ProcessedClosed(elev, dist, order, head) && Discovered(elev, start, dist)
  }

  /** What processing the queue head `cur` at distance d did: the effect `Discover` promises. */
  ghost predicate Grown(elev: Grid, dist: Distances, order: seq<Coord>, cur: Coord, dist': Distances, order': seq<Coord>)
    requires InGrid(elev, cur)
  {
    var ns := Neighbours(elev, cur);
    Extends(dist, dist') &&
    |order'| >= |order| && order'[..|order|] == order &&
    (forall i :: |order| <= i < |order'| ==> order'[i] in ns && Get(dist, order'[i]).None? && Get(dist', order'[i]) == Some(Val(dist, cur) + 1)) &&
    (forall i :: 0 <= i < |ns| ==> Get(dist', ns[i]).Some?) &&
    (forall x :: Get(dist, x).None? && Get(dist', x).Some? ==> x in order'[|order|..])
  }

  lemma GrownPrefix(elev: Grid, dist: Distances, order: seq<Coord>, cur: Coord, dist': Distances, order': seq<Coord>)
    requires InGrid(elev, cur) && Grown(elev, dist, order, cur, dist', order')
    ensures forall i :: 0 <= i < |order| ==> order'[i] == order[i]
  {
    assert forall i :: 0 <= i < |order| ==> order'[..|order|][i] == order'[i];
  }

  lemma ListedStep(elev: Grid, dist: Distances, order: seq<Coord>, cur: Coord, dist': Distances, order': seq<Coord>)
    requires InGrid(elev, cur) && Listed(elev, dist, order) && Grown(elev, dist, order, cur, dist', order')
    ensures Listed(elev, dist', order')
  {
    var ns := Neighbours(elev, cur);
    GrownPrefix(elev, dist, order, cur, dist', order');
    forall i | 0 <= i < |order'|
      ensures InGrid(elev, order'[i]) && Get(dist', order'[i]).Some?
    {
      if i >= |order| {
        assert order'[i] in ns;
      }
    }
    forall x | Get(dist', x).Some? ensures x in order' {
      if Get(dist, x).Some? {
        var j :| 0 <= j < |order| && order[j] == x;
        assert order'[j] == x;
      } else {
        assert x in order'[|order|..];
      }
    }
  }

  lemma AscendingStep(elev: Grid, dist: Distances, order: seq<Coord>, head: nat, dist': Distances, order': seq<Coord>)
    requires head < |order| && Listed(elev, dist, order) && Ascending(dist, order) && Span(dist, order, head)
    requires Grown(elev, dist, order, order[head], dist', order')
    ensures Ascending(dist', order')
  {
    var cur := order[head];
    var d := Val(dist, cur);
    GrownPrefix(elev, dist, order, cur, dist', order');
    forall i, j | 0 <= i < j < |order'|
      ensures Val(dist', order'[i]) <= Val(dist', order'[j])
    {
      if i < |order| {
        assert Val(dist', order[i]) == Val(dist, order[i]);
      }
      if j >= |order| {
        assert Val(dist', order'[j]) == d + 1;
        if i < |order| {
          assert Val(dist, order[i]) <= Val(dist, order[|order| - 1]);
        }
      } else {
        assert Val(dist', order[j]) == Val(dist, order[j]);
      }
    }
  }

  lemma SpanStep(elev: Grid, dist: Distances, order: seq<Coord>, head: nat, dist': Distances, order': seq<Coord>)
    requires head < |order| && Listed(elev, dist, order) && Ascending(dist, order) && Span(dist, order, head)
    requires Grown(elev, dist, order, order[head], dist', order')
    ensures Span(dist', order', head + 1)
  {
    var cur := order[head];
    var d := Val(dist, cur);
    GrownPrefix(elev, dist, order, cur, dist', order');
    if head + 1 < |order'| {
      var last := order'[|order'| - 1];
      if |order'| > |order| {
        assert Val(dist', last) == d + 1;
      } else {
        assert Val(dist', last) == Val(dist, order[|order| - 1]) <= d + 1;
      }
      if head + 1 < |order| {
        assert Val(dist', order'[head + 1]) == Val(dist, order[head + 1]) >= d;
      } else {
        assert Val(dist', order'[head + 1]) == d + 1;
      }
    }
  }

  lemma ClosedStep(elev: Grid, dist: Distances, order: seq<Coord>, head: nat, dist': Distances, order': seq<Coord>)
    requires head < |order| && Listed(elev, dist, order) && Ascending(dist, order) && Span(dist, order, head)
    requires ProcessedClosed(elev, dist, order, head)
    requires Grown(elev, dist, order, order[head], dist', order')
    ensures ProcessedClosed(elev, dist', order', head + 1)
  {
    var cur := order[head];
    GrownPrefix(elev, dist, order, cur, dist', order');
    forall i, c | 0 <= i < head + 1 && i < |order'| && Step(elev, order'[i], c)
      ensures Get(dist', c).Some? && Val(dist', c) <= Val(dist', order'[i]) + 1
    {
      if i == head {
        HeadClosed(elev, dist, order, head, dist', order', c);
      } else {
        assert order'[i] == order[i];
        assert Get(dist, c).Some? && Val(dist, c) <= Val(dist, order[i]) + 1;
      }
    }
  }

  /** The neighbours of the cell just processed are discovered, at most one further. */
  lemma HeadClosed(elev: Grid, dist: Distances, order: seq<Coord>, head: nat, dist': Distances, order': seq<Coord>, c: Coord)
    requires head < |order| && Listed(elev, dist, order) && Ascending(dist, order) && Span(dist, order, head)
    requires Grown(elev, dist, order, order[head], dist', order')
    requires Step(elev, order[head], c)
    ensures Get(dist', c).Some? && Val(dist', c) <= Val(dist', order[head]) + 1
  {
    var cur := order[head];
    var ns := Neighbours(elev, cur);
    assert c in ns;
    var k :| 0 <= k < |ns| && ns[k] == c;
    assert Val(dist', cur) == Val(dist, cur);
    if Get(dist, c).None? {
      assert c in order'[|order|..];
      var m :| |order| <= m < |order'| && order'[m] == c;
      assert Val(dist', c) == Val(dist, cur) + 1;
    } else {
      assert Val(dist', c) == Val(dist, c);
      var j :| 0 <= j < |order| && order[j] == c;
      if j >= head {
        assert Val(dist, c) <= Val(dist, order[|order| - 1]);
      } else {
        assert Val(dist, c) <= Val(dist, cur);
      }
    }
  }


  lemma DiscoveredStep(elev: Grid, start: Coord, dist: Distances, order: seq<Coord>, head: nat, dist': Distances, order': seq<Coord>)
    requires head < |order| && Listed(elev, dist, order) && Discovered(elev, start, dist) && Get(dist, start) == Some(0)
    requires Grown(elev, dist, order, order[head], dist', order')
    ensures Discovered(elev, start, dist') && Get(dist', start) == Some(0)
  {
    var cur := order[head];
    var ns := Neighbours(elev, cur);
    forall c | Get(dist', c).Some? && c != start
      ensures Val(dist', c) > 0 && exists p :: Step(elev, p, c) && Get(dist', p) == Some(Val(dist', c) - 1)
    {
      if Get(dist, c).Some? {
        assert Val(dist, c) == Val(dist', c);
        var p :| Step(elev, p, c) && Get(dist, p) == Some(Val(dist, c) - 1);
        assert Get(dist', p) == Some(Val(dist', c) - 1);
      } else {
        assert c in order'[|order|..];
        var m :| |order| <= m < |order'| && order'[m] == c;
        assert c in ns;
        assert Step(elev, cur, c) && Get(dist', cur) == Some(Val(dist', c) - 1);
      }
    }
  }

  /** Processing the head of the queue keeps the search invariant. */
  lemma ProcessKeepsSearching(elev: Grid, start: Coord, dist: Distances, order: seq<Coord>, head: nat,
                              dist': Distances, order': seq<Coord>)
    requires Searching(elev, start, dist, order, head) && head < |order|
    requires Grown(elev, dist, order, order[head], dist', order')
    ensures Searching(elev, start, dist', order', head + 1)
  {
    ListedStep(elev, dist, order, order[head], dist', order');
    AscendingStep(elev, dist, order, head, dist', order');
    SpanStep(elev, dist, order, head, dist', order');
    ClosedStep(elev, dist, order, head, dist', order');
    DiscoveredStep(elev, start, dist, order, head, dist', order');
  }

  /**
   * `calculate_minimum_distances`: breadth-first search from `start`. The start gets 0,
   * every other discovered cell was discovered from a cell one closer, and everything
   * one step from a discovered cell is discovered no more than one further away.
   */
  method CalculateMinimumDistances(elev: Grid, start: Coord) returns (dist: Distances)
    requires InGrid(elev, start)
    ensures Shaped(dist, elev) && Get(dist, start) == Some(0)
    ensures Discovered(elev, start, dist)
    ensures Closed(elev, dist)
  {
    var blank := Blank(elev);
    UnknownUpdate(blank, start, 0);
    dist := Assign(blank, start, 0);
    var order := [start];
    var head := 0;
    StartSearching(elev, start);
    while head < |order|
      invariant Searching(elev, start, dist, order, head)
      decreases 2 * Unknown(dist) + |order| - head
    {
      var cur := order[head];
      assert InGrid(elev, cur);
      var dist', order' := Expand(elev, dist, order, cur);
      ProcessKeepsSearching(elev, start, dist, order, head, dist', order');
      dist, order, head := dist', order', head + 1;
    }
    SearchedIsClosed(elev, start, dist, order);
  }

  /** The table before the search: every cell undiscovered. */
  function Blank(elev: Grid): (dist: Distances)
    ensures Shaped(dist, elev)
    ensures forall c :: Get(dist, c).None?
  {
    seq(|elev|, r requires 0 <= r < |elev| => seq(|elev[r]|, _ => None))
  }

  /** With only the start discovered at distance 0, the search invariant holds. */
  lemma StartSearching(elev: Grid, start: Coord)
    requires InGrid(elev, start)
    ensures Searching(elev, start, Assign(Blank(elev), start, 0), [start], 0)
  {
    var dist := Assign(Blank(elev), start, 0);
    AssignEffect(Blank(elev), start, 0);
    assert forall x :: Get(dist, x).Some? ==> x == start;
  }

  /** Once every listed cell has been processed, the table is closed under steps. */
  lemma SearchedIsClosed(elev: Grid, start: Coord, dist: Distances, order: seq<Coord>)
    requires Searching(elev, start, dist, order, |order|)
    ensures Closed(elev, dist)
  {
    forall p, c | Get(dist, p).Some? && Step(elev, p, c)
      ensures Get(dist, c).Some? && Val(dist, c) <= Val(dist, p) + 1
    {
      var i :| 0 <= i < |order| && order[i] == p;
    }
  }

  /** A walk of the backwards search: consecutive cells one step apart. */
  ghost predicate IsWalk(elev: Grid, w: seq<Coord>) {
    |w| > 0 && forall i :: 0 < i < |w| ==> Step(elev, w[i - 1], w[i])
  }

  /** Every discovered cell is reached from the start by a walk of exactly its distance in steps. */
  lemma {:induction false} DiscoveredHasWalk(elev: Grid, start: Coord, dist: Distances, c: Coord)
    requires Discovered(elev, start, dist) && Get(dist, start) == Some(0) && Get(dist, c).Some?
    ensures exists w :: IsWalk(elev, w) && w[0] == start && w[|w| - 1] == c && |w| == Val(dist, c) + 1
    decreases Val(dist, c)
  {
    if c == start {
      assert IsWalk(elev, [start]);
    } else {
      assert Val(dist, c) > 0;
      var p :| Step(elev, p, c) && Get(dist, p) == Some(Val(dist, c) - 1);
      DiscoveredHasWalk(elev, start, dist, p);
      var w :| IsWalk(elev, w) && w[0] == start && w[|w| - 1] == p && |w| == Val(dist, p) + 1;
      var w' := w + [c];
      assert IsWalk(elev, w');
    }
  }

  /** No walk from the start reaches a cell in fewer steps than its distance. */
  lemma {:induction false} NoShorterWalk(elev: Grid, start: Coord, dist: Distances, w: seq<Coord>)
    requires Closed(elev, dist) && Get(dist, start) == Some(0)
    requires IsWalk(elev, w) && w[0] == start
    ensures Get(dist, w[|w| - 1]).Some? && Val(dist, w[|w| - 1]) + 1 <= |w|
    decreases |w|
  {
    if |w| > 1 {
      var prefix := w[..|w| - 1];
      assert IsWalk(elev, prefix) by {
        forall i | 0 < i < |prefix| ensures Step(elev, prefix[i - 1], prefix[i]) {
          assert Step(elev, w[i - 1], w[i]);
        }
      }
      NoShorterWalk(elev, start, dist, prefix);
      assert Step(elev, w[|w| - 2], w[|w| - 1]);
    }
  }

  /**
   * The distances found are the shortest walk lengths: a cell is discovered exactly when
   * some walk from the start reaches it, and then its distance is the fewest steps.
   */
  lemma DistancesAreShortest(elev: Grid, start: Coord, dist: Distances, c: Coord)
    requires Discovered(elev, start, dist) && Closed(elev, dist) && Get(dist, start) == Some(0)
    ensures Get(dist, c).Some? <==> exists w :: IsWalk(elev, w) && w[0] == start && w[|w| - 1] == c
    ensures Get(dist, c).Some? ==> forall w :: IsWalk(elev, w) && w[0] == start && w[|w| - 1] == c ==> Val(dist, c) + 1 <= |w|
  {
    if Get(dist, c).Some? {
      DiscoveredHasWalk(elev, start, dist, c);
    }
    forall w | IsWalk(elev, w) && w[0] == start && w[|w| - 1] == c
      ensures Get(dist, c).Some? && Val(dist, c) + 1 <= |w|
    {
      NoShorterWalk(elev, start, dist, w);
    }
  }
}
