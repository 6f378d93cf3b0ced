/**
 * Folding the unfolded net into a cube (day 22, part 2).
 *
 * The top-left block of the net is taken as the top face seen from above. A depth-first
 * traversal over neighbouring blocks of the net tracks the cube's orientation by folding
 * over the shared edge, and copies each block into its face's canonical frame together
 * with where each cell came from and how the face's directions appear in the net.
 */
module CubeNet {

  import opened Common
  import opened Terrain
  import opened CubeTables
  import opened CubeWalk
  import Flat = FlatDirections

  /** Face-local coordinates of net offset (x, y) in a block turned by `rotation` quarter turns. */
  function CanonicalPosition(x: nat, y: nat, n: nat, rotation: nat): (c: (nat, nat))
    requires x < n && y < n && rotation < 4
    ensures c.0 < n && c.1 < n
  {
    if rotation == 0 then (x, y)
    else if rotation == 1 then (n - y - 1, x)
    else if rotation == 2 then (n - x - 1, n - y - 1)
    else (y, n - x - 1)
  }

  function CanonicalPositionOnFace(x: nat, y: nat, n: nat, o: Orientation): (c: (nat, nat))
    requires x < n && y < n
    ensures c.0 < n && c.1 < n
  {
    CanonicalPosition(x, y, n, Rotation(o))
  }

  /** The rotation class that undoes `rotation`. */
  function InverseRotation(rotation: nat): (r: nat)
    requires rotation < 4
    ensures r < 4
  {
    (4 - rotation) % 4
  }

  /**
   * For each rotation class the face-local mapping is a bijection of the n-by-n block:
   * the opposite class is its two-sided inverse.
   */
  lemma CanonicalPositionBijective(x: nat, y: nat, n: nat, rotation: nat)
    requires x < n && y < n && rotation < 4
    ensures var c := CanonicalPosition(x, y, n, rotation);
            CanonicalPosition(c.0, c.1, n, InverseRotation(rotation)) == (x, y)
    ensures var c := CanonicalPosition(x, y, n, InverseRotation(rotation));
            CanonicalPosition(c.0, c.1, n, rotation) == (x, y)
  {
  }

  lemma CanonicalPositionInjective(x1: nat, y1: nat, x2: nat, y2: nat, n: nat, rotation: nat)
    requires x1 < n && y1 < n && x2 < n && y2 < n && rotation < 4
    ensures CanonicalPosition(x1, y1, n, rotation) == CanonicalPosition(x2, y2, n, rotation) <==> (x1, y1) == (x2, y2)
  {
    CanonicalPositionBijective(x1, y1, n, rotation);
    CanonicalPositionBijective(x2, y2, n, rotation);
  }

  /**
   * A step inside a block in the flat direction obtained by rotating `c` by the block's class
   * is a step by `c` in face-local coordinates: the rotated direction tables and the rotated
   * coordinates describe the same turn.
   */
  lemma NetStepIsFaceStep(x: nat, y: nat, n: nat, rotation: nat, c: Flat.FlatDirection)
    requires x < n && y < n && rotation < 4
    requires var delta := Flat.Delta(RotateByClass(c, rotation));
             0 <= x + delta.0 < n && 0 <= y + delta.1 < n
    ensures var delta := Flat.Delta(RotateByClass(c, rotation));
            var before := CanonicalPosition(x, y, n, rotation);
            var after := CanonicalPosition(x + delta.0, y + delta.1, n, rotation);
            after == (before.0 + Flat.Delta(c).0, before.1 + Flat.Delta(c).1)
  {
  }

  /**
   * Walking a legal cube direction inside a face moves in the net by that face's translated
   * direction: the stored translator row agrees with the copied coordinates.
   */
  lemma TranslatorMatchesFaceStep(x: nat, y: nat, n: nat, o: Orientation, d: CubeDirection)
    requires x < n && y < n && Legal(TopFace(o), d)
    requires var net := Flat.Delta(Translate(ActualDirectionTranslation(o), d).value);
             0 <= x + net.0 < n && 0 <= y + net.1 < n
    ensures var net := Flat.Delta(Translate(ActualDirectionTranslation(o), d).value);
            var face := Flat.Delta(Translate(CanonicalDirectionTranslation(TopFace(o)), d).value);
            var before := CanonicalPositionOnFace(x, y, n, o);
            var after := CanonicalPositionOnFace(x + net.0, y + net.1, n, o);
            after == (before.0 + face.0, before.1 + face.1)
  {
    TranslationRowShape(o, d, d);
    var c := CanonicalDirectionTranslation(TopFace(o))[CubeIndex(d)].value;
    NetStepIsFaceStep(x, y, n, Rotation(o), c);
  }

  /** The net offset of one block in each fold direction. */
  function FoldDelta(f: FoldDirection): (int, int) {
    match f
    case FoldUp => (-1, 0)
    case FoldDown => (1, 0)
    case FoldLeft => (0, -1)
    case FoldRight => (0, 1)
  }

  /**
   * The neighbouring blocks of the block at (x, y): below and to the right always, to the
   * left and above only when they do not fall off the top or left of the net.
   */
  function SearchPositions(x: nat, y: nat, n: nat): (r: seq<(FoldDirection, (nat, nat))>)
    ensures |r| == 2 + (if y >= n then 1 else 0) + (if x >= n then 1 else 0)
    ensures r[0].0 == FoldDown && r[1].0 == FoldRight
    ensures forall i :: 0 <= i < |r| ==>
              r[i].1.0 == x + n * FoldDelta(r[i].0).0 && r[i].1.1 == y + n * FoldDelta(r[i].0).1
    ensures y >= n ==> r[2].0 == FoldLeft
    ensures x >= n ==> r[|r| - 1].0 == FoldUp
    ensures HasFold(r, FoldLeft) <==> y >= n
    ensures HasFold(r, FoldUp) <==> x >= n
    ensures forall i, j :: 0 <= i < j < |r| ==> r[i].0 != r[j].0
  {
    var down, right := (FoldDown, (x + n, y)), (FoldRight, (x, y + n));
    if y >= n && x >= n then [down, right, (FoldLeft, (x, y - n)), (FoldUp, (x - n, y))]
    else if y >= n then [down, right, (FoldLeft, (x, y - n))]
    else if x >= n then [down, right, (FoldUp, (x - n, y))]
    else [down, right]
  }

  predicate HasFold(r: seq<(FoldDirection, (nat, nat))>, f: FoldDirection) {
    exists i :: 0 <= i < |r| && r[i].0 == f
  }

  /** The n-by-n block with top-left corner (sx, sy) lies inside the rows of the map. */
  predicate BlockInMap(m: Grid, n: nat, sx: nat, sy: nat) {
    sx + n <= |m| && forall x :: sx <= x < sx + n ==> sy + n <= |m[x]|
  }

  /** The net offset that lands on face-local cell (fx, fy) of a block in orientation o. */
  function NetOffset(fx: nat, fy: nat, n: nat, o: Orientation): (c: (nat, nat))
    requires fx < n && fy < n
    ensures c.0 < n && c.1 < n
  {
    CanonicalPosition(fx, fy, n, InverseRotation(Rotation(o)))
  }

  /** The face obtained by copying the block at (sx, sy) into the canonical frame of orientation o. */
  function BlockFace(m: Grid, n: nat, o: Orientation, sx: nat, sy: nat): (face: seq<seq<Material>>)
    requires BlockInMap(m, n, sx, sy)
    ensures |face| == n && forall fx :: 0 <= fx < n ==> |face[fx]| == n
  {
    seq(n, (fx: int) requires 0 <= fx < n =>
      seq(n, (fy: int) requires 0 <= fy < n =>
        var c := NetOffset(fx, fy, n, o);
        m[sx + c.0][sy + c.1]))
  }

  /** For each face-local cell, the net cell it was copied from. */
  function BlockPositions(n: nat, o: Orientation, sx: nat, sy: nat): (pos: seq<seq<(nat, nat)>>)
    ensures |pos| == n && forall fx :: 0 <= fx < n ==> |pos[fx]| == n
  {
    seq(n, (fx: int) requires 0 <= fx < n =>
      seq(n, (fy: int) requires 0 <= fy < n =>
        var c := NetOffset(fx, fy, n, o);
        (sx + c.0, sy + c.1)))
  }

  /**
   * Copying a block writes every net cell of the block to the face-local cell the mapping
   * sends it to, and records the net cell it came from.
   */
  lemma BlockCopiesEveryCell(m: Grid, n: nat, o: Orientation, sx: nat, sy: nat, x: nat, y: nat)
    requires BlockInMap(m, n, sx, sy) && x < n && y < n
    ensures var c := CanonicalPositionOnFace(x, y, n, o);
            BlockFace(m, n, o, sx, sy)[c.0][c.1] == m[sx + x][sy + y] &&
            BlockPositions(n, o, sx, sy)[c.0][c.1] == (sx + x, sy + y)
  {
    CanonicalPositionBijective(x, y, n, Rotation(o));
  }

  function EmptyFace(n: nat): seq<seq<Material>> {
    seq(n, i => seq(n, j => Void))
  }

  function ZeroPositions(n: nat): seq<seq<(nat, nat)>> {
    seq(n, i => seq(n, j => (0, 0)))
  }

  const NoTranslation: seq<Option<Flat.FlatDirection>> := [None, None, None, None, None, None]

  /**
   * Face g holds the copy of some block of the net, in an orientation whose top face is g
   * and which folding from the starting block along edges of the net brings that block to.
   */
  ghost predicate IsBlockRecord(m: Grid, n: nat, sy0: nat, g: nat, face: seq<seq<Material>>,
                                pos: seq<seq<(nat, nat)>>, dirs: seq<Option<Flat.FlatDirection>>)
  {
    exists o: Orientation, sx: nat, sy: nat ::
      Reached(m, n, sy0, (o, sx, sy)) && FaceIndex(TopFace(o)) == g && BlockInMap(m, n, sx, sy) &&
      face == BlockFace(m, n, o, sx, sy) && pos == BlockPositions(n, o, sx, sy) &&
      dirs == ActualDirectionTranslation(o)
  }

  /** The folded cube, with the translation of every face cell and direction back to the net. */
  datatype FoldedNet = FoldedNet(
    cube: CubeMap,
    positions: seq<seq<seq<(nat, nat)>>>,
    directions: seq<seq<Option<Flat.FlatDirection>>>)

  function CountUnseen(seen: seq<bool>): (k: nat)
    ensures k <= |seen|
  {
    if |seen| == 0 then 0 else CountUnseen(seen[..|seen| - 1]) + (if seen[|seen| - 1] then 0 else 1)
  }

  lemma {:induction false} MarkSeenDecreases(seen: seq<bool>, i: nat)
    requires i < |seen| && !seen[i]
    ensures CountUnseen(seen[i := true]) == CountUnseen(seen) - 1
    decreases |seen|
  {
    if i < |seen| - 1 {
      assert seen[i := true][..|seen| - 1] == seen[..|seen| - 1][i := true];
      MarkSeenDecreases(seen[..|seen| - 1], i);
    } else {
      assert seen[i := true][..|seen| - 1] == seen[..|seen| - 1];
    }
  }

  /** Stacked blocks whose face has already been copied. */
  function StaleItems(stack: seq<(Orientation, nat, nat)>, seen: seq<bool>): nat
    requires |seen| == 6
  {
    if |stack| == 0 then 0
    else StaleItems(stack[..|stack| - 1], seen) + (if seen[FaceIndex(TopFace(stack[|stack| - 1].0))] then 1 else 0)
  }

  /**
   * Folding the net: from the first cell of the top row, a depth-first traversal over
   * neighbouring non-Void blocks. Each popped block is copied to the face its orientation
   * brings to the top; its neighbours are pushed with the folded orientation unless that
   * face has already been copied. Reading a block that is not inside the map fails, as
   * does a map with no rows or whose top row is all Void.
   */
  method FoldNet(m: Grid, n: nat) returns (r: Option<FoldedNet>)
    ensures |m| == 0 || FirstSolid(m[0]).None? ==> r.None?
    ensures r.Some? ==> WellFormed(r.value.cube) && r.value.cube.side == n
    ensures r.Some? ==> |r.value.positions| == 6 && |r.value.directions| == 6
    ensures r.Some? ==> forall g :: 0 <= g < 6 ==>
              IsBlockRecord(m, n, FirstSolid(m[0]).value, g, r.value.cube.faces[g], r.value.positions[g],
                            r.value.directions[g]) ||
              (r.value.cube.faces[g] == EmptyFace(n) && r.value.positions[g] == ZeroPositions(n) &&
               r.value.directions[g] == NoTranslation)
    ensures r.Some? ==> (BlockInMap(m, n, 0, FirstSolid(m[0]).value) &&
                         r.value.cube.faces[0] == BlockFace(m, n, UF, 0, FirstSolid(m[0]).value) &&
                         r.value.directions[0] == ActualDirectionTranslation(UF))
  {
    if |m| == 0 || FirstSolid(m[0]).None? {
      return None;
    }
    var sy0 := FirstSolid(m[0]).value;
    var state := Blank(n);
    var stack: seq<(Orientation, nat, nat)> := [(UF, 0, sy0)];
    FoldStart(m, n, sy0);
    while |stack| > 0
      invariant FoldInvariant(m, n, sy0, state, stack)
      decreases CountUnseen(state.seen), StaleItems(stack, state.seen)
    {
      var item := stack[|stack| - 1];
      var rest := stack[..|stack| - 1];
      assert stack == rest + [item];
      var o, sx, sy := item.0, item.1, item.2;
      if !BlockInMap(m, n, sx, sy) {
        return None;
      }
      var g := FaceIndex(TopFace(o));
      if !state.seen[g] {
        MarkSeenDecreases(state.seen, g);
      } else {
        assert state.seen[g := true] == state.seen;
      }
      assert StaleItems(stack, state.seen) == StaleItems(rest, state.seen) + (if state.seen[g] then 1 else 0);
      var state' := Discovery(state.faces[g := BlockFace(m, n, o, sx, sy)],
                              state.positions[g := BlockPositions(n, o, sx, sy)],
                              state.directions[g := ActualDirectionTranslation(o)], state.seen[g := true]);
      var pushed := NeighboursToPush(m, o, state'.seen, SearchPositions(sx, sy, n));
      FoldStep(m, n, sy0, state, stack, state', pushed);
      StaleItemsAppendFresh(rest, pushed, state'.seen);
      state := state';
      stack := rest + pushed;
    }
    ConsistentIsWellFormed(m, n, sy0, state);
    r := Some(FoldedNet(CubeMap(n, state.faces), state.positions, state.directions));
  }

  /**
   * The loop invariant of the traversal: the copies are consistent with the net and every
   * stacked block is reached by folding from the starting block; until the top face is
   * copied the stack holds just the starting block, and afterwards the top face holds that
   * block and is never pushed again.
   */
  ghost predicate FoldInvariant(m: Grid, n: nat, sy0: nat, s: Discovery, stack: seq<(Orientation, nat, nat)>) {
    && Consistent(m, n, sy0, s)
    && (forall k :: 0 <= k < |stack| ==> Reached(m, n, sy0, stack[k]))
    && (!s.seen[0] ==> stack == [(UF, 0, sy0)])
    && (s.seen[0] ==> forall k :: 0 <= k < |stack| ==> TopFace(stack[k].0) != U)
    && (s.seen[0] ==> TopRecorded(m, n, sy0, s))
  }

  /** Copying the block on top of the stack and pushing its fresh neighbours keeps the invariant. */
  lemma FoldStep(m: Grid, n: nat, sy0: nat, s: Discovery, stack: seq<(Orientation, nat, nat)>,
                 s': Discovery, pushed: seq<(Orientation, nat, nat)>)
    requires FoldInvariant(m, n, sy0, s, stack) && |stack| > 0
    requires var (o, sx, sy) := stack[|stack| - 1];
      && BlockInMap(m, n, sx, sy) && Recorded(m, n, s, o, sx, sy, s')
      && pushed == NeighboursToPush(m, o, s'.seen, SearchPositions(sx, sy, n))
    ensures FoldInvariant(m, n, sy0, s', stack[..|stack| - 1] + pushed)
  {
    var (o, sx, sy) := stack[|stack| - 1];
    RecordKeepsConsistent(m, n, sy0, s, o, sx, sy, s');
    var stack' := stack[..|stack| - 1] + pushed;
    StackStaysReached(m, n, sy0, stack, s'.seen, pushed);
    if s'.seen[0] {
      forall k | 0 <= k < |stack'|
        ensures TopFace(stack'[k].0) != U
      {
        if k < |stack| - 1 {
          assert stack'[k] == stack[k];
        } else {
          assert !s'.seen[FaceIndex(TopFace(pushed[k - (|stack| - 1)].0))];
        }
      }
    }
  }

  /** Replacing the top of a stack of reached blocks by the blocks it pushes keeps every block reached. */
  lemma StackStaysReached(m: Grid, n: nat, sy0: nat, stack: seq<(Orientation, nat, nat)>, seen: seq<bool>,
                          pushed: seq<(Orientation, nat, nat)>)
    requires |stack| > 0 && |seen| == 6 && forall k :: 0 <= k < |stack| ==> Reached(m, n, sy0, stack[k])
    requires var (o, sx, sy) := stack[|stack| - 1]; pushed == NeighboursToPush(m, o, seen, SearchPositions(sx, sy, n))
    ensures var stack' := stack[..|stack| - 1] + pushed;
            forall k :: 0 <= k < |stack'| ==> Reached(m, n, sy0, stack'[k])
  {
    var (o, sx, sy) := stack[|stack| - 1];
    var stack' := stack[..|stack| - 1] + pushed;
    forall k | 0 <= k < |stack'|
      ensures Reached(m, n, sy0, stack'[k])
    {
      if k < |stack| - 1 {
        assert stack'[k] == stack[k];
      } else {
        PushedIsNetEdge(m, n, o, sx, sy, seen, pushed, k - (|stack| - 1));
        ReachedStep(m, n, sy0, (o, sx, sy), stack'[k]);
      }
    }
  }

  /** Nothing copied yet: every face empty and unseen. */
  function Blank(n: nat): Discovery {
    Discovery(seq(6, i => EmptyFace(n)), seq(6, i => ZeroPositions(n)), seq(6, i => NoTranslation), seq(6, i => false))
  }

  /** The traversal starts from the invariant: nothing copied and the starting block stacked. */
  lemma FoldStart(m: Grid, n: nat, sy0: nat)
    ensures FoldInvariant(m, n, sy0, Blank(n), [(UF, 0, sy0)])
  {
    assert FoldPath(m, n, sy0, [(UF, 0, sy0)]);
    forall g | 0 <= g < 6
      ensures FaceConsistent(m, n, sy0, Blank(n), g)
    {
    }
  }

  /** What the traversal has copied so far, indexed by face. */
  datatype Discovery = Discovery(
    faces: seq<seq<seq<Material>>>,
    positions: seq<seq<seq<(nat, nat)>>>,
    directions: seq<seq<Option<Flat.FlatDirection>>>,
    seen: seq<bool>)

  /** Copied faces hold a block of the net; the others still hold their initial contents. */
  ghost predicate Consistent(m: Grid, n: nat, sy0: nat, s: Discovery) {
    && |s.faces| == 6 && |s.positions| == 6 && |s.directions| == 6 && |s.seen| == 6
    && forall g :: 0 <= g < 6 ==> FaceConsistent(m, n, sy0, s, g)
  }

  ghost predicate FaceConsistent(m: Grid, n: nat, sy0: nat, s: Discovery, g: nat)
    requires |s.faces| == 6 && |s.positions| == 6 && |s.directions| == 6 && |s.seen| == 6 && g < 6
  {
    && (s.seen[g] ==> IsBlockRecord(m, n, sy0, g, s.faces[g], s.positions[g], s.directions[g]))
    && (!s.seen[g] ==> s.faces[g] == EmptyFace(n) && s.positions[g] == ZeroPositions(n) && s.directions[g] == NoTranslation)
  }

  predicate TopRecorded(m: Grid, n: nat, sy0: nat, s: Discovery)
    requires |s.faces| == 6 && |s.directions| == 6
  {
    BlockInMap(m, n, 0, sy0) && s.faces[0] == BlockFace(m, n, UF, 0, sy0) &&
    s.directions[0] == ActualDirectionTranslation(UF)
  }

  /** The state after copying the block at (sx, sy) in orientation o. */
  ghost predicate Recorded(m: Grid, n: nat, s: Discovery, o: Orientation, sx: nat, sy: nat, s': Discovery)
    requires |s.faces| == 6 && |s.positions| == 6 && |s.directions| == 6 && |s.seen| == 6
    requires BlockInMap(m, n, sx, sy)
  {
    var g := FaceIndex(TopFace(o));
    s' == Discovery(s.faces[g := BlockFace(m, n, o, sx, sy)], s.positions[g := BlockPositions(n, o, sx, sy)],
                    s.directions[g := ActualDirectionTranslation(o)], s.seen[g := true])
  }

  lemma RecordKeepsConsistent(m: Grid, n: nat, sy0: nat, s: Discovery, o: Orientation, sx: nat, sy: nat,
                              s': Discovery)
    requires Consistent(m, n, sy0, s) && BlockInMap(m, n, sx, sy) && Recorded(m, n, s, o, sx, sy, s')
    requires Reached(m, n, sy0, (o, sx, sy))
    ensures Consistent(m, n, sy0, s')
    ensures s'.seen[FaceIndex(TopFace(o))]
    ensures forall g :: 0 <= g < 6 && g != FaceIndex(TopFace(o)) ==>
              s'.seen[g] == s.seen[g] && s'.faces[g] == s.faces[g] && s'.directions[g] == s.directions[g]
    ensures o == UF && sx == 0 ==> TopRecorded(m, n, sy, s')
  {
    var t := FaceIndex(TopFace(o));
    BlockIsRecorded(m, n, sy0, o, sx, sy);
    forall g | 0 <= g < 6
      ensures FaceConsistent(m, n, sy0, s', g)
    {
      if g != t {
        assert FaceConsistent(m, n, sy0, s, g);
      }
    }
  }

  lemma ConsistentIsWellFormed(m: Grid, n: nat, sy0: nat, s: Discovery)
    requires Consistent(m, n, sy0, s)
    ensures WellFormed(CubeMap(n, s.faces))
    ensures forall g :: 0 <= g < 6 ==>
              IsBlockRecord(m, n, sy0, g, s.faces[g], s.positions[g], s.directions[g]) ||
              (s.faces[g] == EmptyFace(n) && s.positions[g] == ZeroPositions(n) && s.directions[g] == NoTranslation)
  {
    forall g | 0 <= g < 6
      ensures |s.faces[g]| == n && forall x :: 0 <= x < n ==> |s.faces[g][x]| == n
      ensures IsBlockRecord(m, n, sy0, g, s.faces[g], s.positions[g], s.directions[g]) ||
              (s.faces[g] == EmptyFace(n) && s.positions[g] == ZeroPositions(n) && s.directions[g] == NoTranslation)
    {
      assert FaceConsistent(m, n, sy0, s, g);
      if s.seen[g] {
        var o: Orientation, sx: nat, sy: nat :| FaceIndex(TopFace(o)) == g && BlockInMap(m, n, sx, sy) &&
          s.faces[g] == BlockFace(m, n, o, sx, sy);
      }
    }
  }

  lemma BlockIsRecorded(m: Grid, n: nat, sy0: nat, o: Orientation, sx: nat, sy: nat)
    requires BlockInMap(m, n, sx, sy) && Reached(m, n, sy0, (o, sx, sy))
    ensures IsBlockRecord(m, n, sy0, FaceIndex(TopFace(o)), BlockFace(m, n, o, sx, sy),
                          BlockPositions(n, o, sx, sy), ActualDirectionTranslation(o))
  {
  }

  /** A net cell that is part of the net: in bounds and not Void. */
  predicate OnNet(m: Grid, x: nat, y: nat) {
    x < |m| && y < |m[x]| && m[x][y] != Void
  }

  /** A neighbour that is part of the net and whose folded face is not yet copied has been pushed. */
  predicate Pushed(m: Grid, o: Orientation, seen: seq<bool>, neighbour: (FoldDirection, (nat, nat)),
                   pushed: seq<(Orientation, nat, nat)>)
    requires |seen| == 6
  {
    var next := NextOrientation(o, neighbour.0);
    OnNet(m, neighbour.1.0, neighbour.1.1) && !seen[FaceIndex(TopFace(next))] ==>
      (next, neighbour.1.0, neighbour.1.1) in pushed
  }

  /**
   * The blocks pushed after copying a block, in push order: each neighbouring block whose
   * corner cell is part of the net, folded over the shared edge, unless its face has
   * already been copied.
   */
  function NeighboursToPush(m: Grid, o: Orientation, seen: seq<bool>, ns: seq<(FoldDirection, (nat, nat))>)
    : (pushed: seq<(Orientation, nat, nat)>)
    requires |seen| == 6
    ensures |pushed| <= |ns|
    ensures forall k :: 0 <= k < |pushed| ==> !seen[FaceIndex(TopFace(pushed[k].0))]
    ensures forall k :: 0 <= k < |pushed| ==> OnNet(m, pushed[k].1, pushed[k].2)
    ensures forall i :: 0 <= i < |ns| ==> Pushed(m, o, seen, ns[i], pushed)
    ensures forall k :: 0 <= k < |pushed| ==> exists i :: 0 <= i < |ns| && pushed[k] == Fold(o, ns[i])
    decreases |ns|
  {
    if |ns| == 0 then []
    else
      var next := NextOrientation(o, ns[0].0);
      var (nx, ny) := ns[0].1;
      var tail := NeighboursToPush(m, o, seen, ns[1..]);
      assert forall i :: 1 <= i < |ns| ==> ns[i] == ns[1..][i - 1];
      if nx < |m| && ny < |m[nx]| && m[nx][ny] != Void && !seen[FaceIndex(TopFace(next))]
      then [(next, nx, ny)] + tail
      else tail
  }

  /** Pushing blocks of faces not yet copied adds no stale items. */
  lemma {:induction false} StaleItemsAppendFresh(stack: seq<(Orientation, nat, nat)>, pushed: seq<(Orientation, nat, nat)>,
                                                 seen: seq<bool>)
    requires |seen| == 6
    requires forall k :: 0 <= k < |pushed| ==> !seen[FaceIndex(TopFace(pushed[k].0))]
    ensures StaleItems(stack + pushed, seen) == StaleItems(stack, seen)
    decreases |pushed|
  {
    if |pushed| > 0 {
      var init := pushed[..|pushed| - 1];
      assert (stack + pushed)[..|stack + pushed| - 1] == stack + init;
      var last := (stack + pushed)[|stack + pushed| - 1];
      assert last == pushed[|pushed| - 1];
      assert StaleItems(stack + pushed, seen) == StaleItems(stack + init, seen);
      StaleItemsAppendFresh(stack, init, seen);
    } else {
      assert stack + pushed == stack;
    }
  }

  /** The block reached by folding orientation o over the edge towards a neighbour. */
  function Fold(o: Orientation, neighbour: (FoldDirection, (nat, nat))): (Orientation, nat, nat) {
    (NextOrientation(o, neighbour.0), neighbour.1.0, neighbour.1.1)
  }

  /**
   * An edge of the traversal: b is a neighbouring block of a that is part of the net, in
   * the orientation obtained by folding a's orientation over the shared edge.
   */
  predicate NetEdge(m: Grid, n: nat, a: (Orientation, nat, nat), b: (Orientation, nat, nat)) {
    var ns := SearchPositions(a.1, a.2, n);
    OnNet(m, b.1, b.2) && exists i :: 0 <= i < |ns| && b == Fold(a.0, ns[i])
  }

  /** A chain of folds from the starting block, seen from above, along edges of the net. */
  predicate FoldPath(m: Grid, n: nat, sy0: nat, path: seq<(Orientation, nat, nat)>) {
    && |path| >= 1 && path[0] == (UF, 0, sy0)
    && forall k :: 0 <= k < |path| - 1 ==> NetEdge(m, n, path[k], path[k + 1])
  }

  /** Some chain of folds from the starting block ends at block b in b's orientation. */
  ghost predicate Reached(m: Grid, n: nat, sy0: nat, b: (Orientation, nat, nat)) {
    exists path :: FoldPath(m, n, sy0, path) && path[|path| - 1] == b
  }

  /** One more fold along an edge of the net extends a chain. */
  lemma ReachedStep(m: Grid, n: nat, sy0: nat, a: (Orientation, nat, nat), b: (Orientation, nat, nat))
    requires Reached(m, n, sy0, a) && NetEdge(m, n, a, b)
    ensures Reached(m, n, sy0, b)
  {
    var path :| FoldPath(m, n, sy0, path) && path[|path| - 1] == a;
    var longer := path + [b];
    forall k | 0 <= k < |longer| - 1
      ensures NetEdge(m, n, longer[k], longer[k + 1])
    {
      if k < |path| - 1 {
        assert longer[k] == path[k] && longer[k + 1] == path[k + 1];
      }
    }
    assert FoldPath(m, n, sy0, longer);
  }

  /** Every block pushed after copying the block at (sx, sy) is across an edge of the net from it. */
  lemma PushedIsNetEdge(m: Grid, n: nat, o: Orientation, sx: nat, sy: nat, seen: seq<bool>,
                        pushed: seq<(Orientation, nat, nat)>, k: nat)
    requires |seen| == 6 && pushed == NeighboursToPush(m, o, seen, SearchPositions(sx, sy, n)) && k < |pushed|
    ensures NetEdge(m, n, (o, sx, sy), pushed[k])
  {
  }

  /** `a` appears in `b` in the same order, possibly with other elements in between. */
  predicate IsSubsequence<T(==)>(a: seq<T>, b: seq<T>)
    decreases |b|
  {
    if |a| == 0 then true
    else if |b| == 0 then false
    else (a[0] == b[0] && IsSubsequence(a[1..], b[1..])) || IsSubsequence(a, b[1..])
  }

  /** The folded block of every neighbour, in search order. */
  function Folds(o: Orientation, ns: seq<(FoldDirection, (nat, nat))>): (r: seq<(Orientation, nat, nat)>)
    ensures |r| == |ns| && forall i :: 0 <= i < |ns| ==> r[i] == Fold(o, ns[i])
  {
    seq(|ns|, i requires 0 <= i < |ns| => Fold(o, ns[i]))
  }

  /**
   * The pushed blocks keep the search order of the neighbours they come from, so the last
   * one pushed, which is popped first, is the latest neighbour in search order.
   */
  lemma {:induction false} NeighboursToPushInOrder(m: Grid, o: Orientation, seen: seq<bool>,
                                                   ns: seq<(FoldDirection, (nat, nat))>)
    requires |seen| == 6
    ensures IsSubsequence(NeighboursToPush(m, o, seen, ns), Folds(o, ns))
    decreases |ns|
  {
    if |ns| > 0 {
      NeighboursToPushInOrder(m, o, seen, ns[1..]);
      assert Folds(o, ns)[1..] == Folds(o, ns[1..]);
      var tail := NeighboursToPush(m, o, seen, ns[1..]);
      if NeighboursToPush(m, o, seen, ns) != tail {
        assert NeighboursToPush(m, o, seen, ns) == [Fold(o, ns[0])] + tail;
        assert ([Fold(o, ns[0])] + tail)[1..] == tail;
      }
    }
  }
}
