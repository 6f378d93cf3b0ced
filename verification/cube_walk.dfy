/**
 * The edge-transition table and the walker of the cube map (day 22).
 *
 * A position is a face, a (row, column) pair in that face's canonical frame and a
 * direction. A forward step stays on the face while it can and otherwise crosses
 * onto a fixed neighbouring face, remapping the coordinate it keeps and turning the
 * direction to the one that leaves the shared edge on the other side.
 */
module CubeWalk {

  import opened Common
  import opened CubeTables
  import opened Terrain
  import Flat = FlatDirections

  datatype CubePosition = CubePosition(face: Face, x: nat, y: nat, direction: CubeDirection)

  predicate InFace(n: nat, p: CubePosition) {
    p.x < n && p.y < n
  }

  /** A state from which every rule of the table is defined: on the face and facing along it. */
  predicate LegalPosition(n: nat, p: CubePosition) {
    InFace(n, p) && Legal(p.face, p.direction)
  }

  function Reversed(p: CubePosition): CubePosition {
    p.(direction := CubeReverse(p.direction))
  }

  function NextPositionU(n: nat, x: nat, y: nat, d: CubeDirection): Option<CubePosition>
    requires x < n && y < n
  {
    match d
    case Left => Some(if y > 0 then CubePosition(U, x, y - 1, d) else CubePosition(L, 0, x, Down))
    case Right => Some(if y < n - 1 then CubePosition(U, x, y + 1, d) else CubePosition(R, 0, n - x - 1, Down))
    case In => Some(if x > 0 then CubePosition(U, x - 1, y, d) else CubePosition(B, 0, n - y - 1, Down))
    case Out => Some(if x < n - 1 then CubePosition(U, x + 1, y, d) else CubePosition(F, 0, y, Down))
    case _ => None
  }

  function NextPositionF(n: nat, x: nat, y: nat, d: CubeDirection): Option<CubePosition>
    requires x < n && y < n
  {
    match d
    case Left => Some(if y > 0 then CubePosition(F, x, y - 1, d) else CubePosition(L, x, n - 1, In))
    case Right => Some(if y < n - 1 then CubePosition(F, x, y + 1, d) else CubePosition(R, x, 0, In))
    case Up => Some(if x > 0 then CubePosition(F, x - 1, y, d) else CubePosition(U, n - 1, y, In))
    case Down => Some(if x < n - 1 then CubePosition(F, x + 1, y, d) else CubePosition(D, 0, y, In))
    case _ => None
  }

  function NextPositionR(n: nat, x: nat, y: nat, d: CubeDirection): Option<CubePosition>
    requires x < n && y < n
  {
    match d
    case Out => Some(if y > 0 then CubePosition(R, x, y - 1, d) else CubePosition(F, x, n - 1, Left))
    case In => Some(if y < n - 1 then CubePosition(R, x, y + 1, d) else CubePosition(B, x, 0, Left))
    case Up => Some(if x > 0 then CubePosition(R, x - 1, y, d) else CubePosition(U, n - y - 1, n - 1, Left))
    case Down => Some(if x < n - 1 then CubePosition(R, x + 1, y, d) else CubePosition(D, y, n - 1, Left))
    case _ => None
  }

  function NextPositionL(n: nat, x: nat, y: nat, d: CubeDirection): Option<CubePosition>
    requires x < n && y < n
  {
    match d
    case In => Some(if y > 0 then CubePosition(L, x, y - 1, d) else CubePosition(B, x, n - 1, Right))
    case Out => Some(if y < n - 1 then CubePosition(L, x, y + 1, d) else CubePosition(F, x, 0, Right))
    case Up => Some(if x > 0 then CubePosition(L, x - 1, y, d) else CubePosition(U, y, 0, Right))
    case Down => Some(if x < n - 1 then CubePosition(L, x + 1, y, d) else CubePosition(D, n - y - 1, 0, Right))
    case _ => None
  }

  function NextPositionB(n: nat, x: nat, y: nat, d: CubeDirection): Option<CubePosition>
    requires x < n && y < n
  {
    match d
    case Right => Some(if y > 0 then CubePosition(B, x, y - 1, d) else CubePosition(R, x, n - 1, Out))
    case Left => Some(if y < n - 1 then CubePosition(B, x, y + 1, d) else CubePosition(L, x, 0, Out))
    case Up => Some(if x > 0 then CubePosition(B, x - 1, y, d) else CubePosition(U, 0, n - y - 1, Out))
    case Down => Some(if x < n - 1 then CubePosition(B, x + 1, y, d) else CubePosition(D, n - 1, n - y - 1, Out))
    case _ => None
  }

  function NextPositionD(n: nat, x: nat, y: nat, d: CubeDirection): Option<CubePosition>
    requires x < n && y < n
  {
    match d
    case Left => Some(if y > 0 then CubePosition(D, x, y - 1, d) else CubePosition(L, n - 1, n - x - 1, Up))
    case Right => Some(if y < n - 1 then CubePosition(D, x, y + 1, d) else CubePosition(R, n - 1, x, Up))
    case Out => Some(if x > 0 then CubePosition(D, x - 1, y, d) else CubePosition(F, n - 1, y, Up))
    case In => Some(if x < n - 1 then CubePosition(D, x + 1, y, d) else CubePosition(B, n - 1, n - y - 1, Up))
    case _ => None
  }

  /** The edge-transition table for a cube of side `n`; `None` is the source's illegal-direction panic. */
  function NextPosition(n: nat, p: CubePosition): Option<CubePosition>
    requires InFace(n, p)
  {
    match p.face
    case U => NextPositionU(n, p.x, p.y, p.direction)
    case F => NextPositionF(n, p.x, p.y, p.direction)
    case R => NextPositionR(n, p.x, p.y, p.direction)
    case L => NextPositionL(n, p.x, p.y, p.direction)
    case B => NextPositionB(n, p.x, p.y, p.direction)
    case D => NextPositionD(n, p.x, p.y, p.direction)
  }

  /**
   * The table is defined exactly on legal states (so the panic arms are unreachable from
   * them), and from a legal state it always reaches a legal state on a cube of the same size.
   */
  lemma NextPositionStaysLegal(n: nat, p: CubePosition)
    requires InFace(n, p)
    ensures NextPosition(n, p).Some? <==> Legal(p.face, p.direction)
    ensures NextPosition(n, p).Some? ==> LegalPosition(n, NextPosition(n, p).value)
  {
    match p.face
    case U => {} case F => {} case R => {} case L => {} case B => {} case D => {}
  }

  /**
   * A step either stays on the face, keeping the direction and moving one cell the way the
   * direction points in the canonical net, or happens exactly at the face's edge and lands on
   * the edge of a different face.
   */
  lemma NextPositionSameFaceMove(n: nat, p: CubePosition)
    requires LegalPosition(n, p)
    ensures var q := NextPosition(n, p).value;
            var delta := Flat.Delta(CanonicalDirectionTranslation(p.face)[CubeIndex(p.direction)].value);
            if q.face == p.face then
              q.direction == p.direction && q.x as int == p.x + delta.0 && q.y as int == p.y + delta.1
            else
              !(0 <= p.x + delta.0 < n && 0 <= p.y + delta.1 < n)
              && (q.x == 0 || q.x == n - 1 || q.y == 0 || q.y == n - 1)
  {
    NextPositionStaysLegal(n, p);
    match p.face
    case U => SameFaceMoveU(n, p);
    case F => SameFaceMoveF(n, p);
    case R => SameFaceMoveR(n, p);
    case L => SameFaceMoveL(n, p);
    case B => SameFaceMoveB(n, p);
    case D => SameFaceMoveD(n, p);
  }

  /**
   * Edge involution: stepping back from where a step landed, facing the other way, returns to
   * the cell the step started from, facing the other way.
   */
  lemma NextPositionInvolution(n: nat, p: CubePosition)
    requires LegalPosition(n, p)
    ensures NextPosition(n, p).Some? && LegalPosition(n, NextPosition(n, p).value)
    ensures NextPosition(n, Reversed(NextPosition(n, p).value)) == Some(Reversed(p))
  {
    NextPositionStaysLegal(n, p);
    match p.face
    case U => InvolutionU(n, p);
    case F => InvolutionF(n, p);
    case R => InvolutionR(n, p);
    case L => InvolutionL(n, p);
    case B => InvolutionB(n, p);
    case D => InvolutionD(n, p);
  }

  lemma SameFaceMoveU(n: nat, p: CubePosition)
    requires LegalPosition(n, p) && p.face == U && NextPosition(n, p).Some?
    ensures var q := NextPosition(n, p).value;
            var delta := Flat.Delta(CanonicalDirectionTranslation(p.face)[CubeIndex(p.direction)].value);
            if q.face == p.face then
              q.direction == p.direction && q.x as int == p.x + delta.0 && q.y as int == p.y + delta.1
            else
              !(0 <= p.x + delta.0 < n && 0 <= p.y + delta.1 < n)
              && (q.x == 0 || q.x == n - 1 || q.y == 0 || q.y == n - 1)
  {
  }

  lemma SameFaceMoveF(n: nat, p: CubePosition)
    requires LegalPosition(n, p) && p.face == F && NextPosition(n, p).Some?
    ensures var q := NextPosition(n, p).value;
            var delta := Flat.Delta(CanonicalDirectionTranslation(p.face)[CubeIndex(p.direction)].value);
            if q.face == p.face then
              q.direction == p.direction && q.x as int == p.x + delta.0 && q.y as int == p.y + delta.1
            else
              !(0 <= p.x + delta.0 < n && 0 <= p.y + delta.1 < n)
              && (q.x == 0 || q.x == n - 1 || q.y == 0 || q.y == n - 1)
  {
  }

  lemma SameFaceMoveR(n: nat, p: CubePosition)
    requires LegalPosition(n, p) && p.face == R && NextPosition(n, p).Some?
    ensures var q := NextPosition(n, p).value;
            var delta := Flat.Delta(CanonicalDirectionTranslation(p.face)[CubeIndex(p.direction)].value);
            if q.face == p.face then
              q.direction == p.direction && q.x as int == p.x + delta.0 && q.y as int == p.y + delta.1
            else
              !(0 <= p.x + delta.0 < n && 0 <= p.y + delta.1 < n)
              && (q.x == 0 || q.x == n - 1 || q.y == 0 || q.y == n - 1)
  {
  }

  lemma SameFaceMoveL(n: nat, p: CubePosition)
    requires LegalPosition(n, p) && p.face == L && NextPosition(n, p).Some?
    ensures var q := NextPosition(n, p).value;
            var delta := Flat.Delta(CanonicalDirectionTranslation(p.face)[CubeIndex(p.direction)].value);
            if q.face == p.face then
              q.direction == p.direction && q.x as int == p.x + delta.0 && q.y as int == p.y + delta.1
            else
              !(0 <= p.x + delta.0 < n && 0 <= p.y + delta.1 < n)
              && (q.x == 0 || q.x == n - 1 || q.y == 0 || q.y == n - 1)
  {
  }

  lemma SameFaceMoveB(n: nat, p: CubePosition)
    requires LegalPosition(n, p) && p.face == B && NextPosition(n, p).Some?
    ensures var q := NextPosition(n, p).value;
            var delta := Flat.Delta(CanonicalDirectionTranslation(p.face)[CubeIndex(p.direction)].value);
            if q.face == p.face then
              q.direction == p.direction && q.x as int == p.x + delta.0 && q.y as int == p.y + delta.1
            else
              !(0 <= p.x + delta.0 < n && 0 <= p.y + delta.1 < n)
              && (q.x == 0 || q.x == n - 1 || q.y == 0 || q.y == n - 1)
  {
  }

  lemma SameFaceMoveD(n: nat, p: CubePosition)
    requires LegalPosition(n, p) && p.face == D && NextPosition(n, p).Some?
    ensures var q := NextPosition(n, p).value;
            var delta := Flat.Delta(CanonicalDirectionTranslation(p.face)[CubeIndex(p.direction)].value);
            if q.face == p.face then
              q.direction == p.direction && q.x as int == p.x + delta.0 && q.y as int == p.y + delta.1
            else
              !(0 <= p.x + delta.0 < n && 0 <= p.y + delta.1 < n)
              && (q.x == 0 || q.x == n - 1 || q.y == 0 || q.y == n - 1)
  {
  }

  lemma InvolutionU(n: nat, p: CubePosition)
    requires LegalPosition(n, p) && p.face == U && NextPosition(n, p).Some?
    requires LegalPosition(n, NextPosition(n, p).value)
    ensures NextPosition(n, Reversed(NextPosition(n, p).value)) == Some(Reversed(p))
  {
  }

  lemma InvolutionF(n: nat, p: CubePosition)
    requires LegalPosition(n, p) && p.face == F && NextPosition(n, p).Some?
    requires LegalPosition(n, NextPosition(n, p).value)
    ensures NextPosition(n, Reversed(NextPosition(n, p).value)) == Some(Reversed(p))
  {
  }

  lemma InvolutionR(n: nat, p: CubePosition)
    requires LegalPosition(n, p) && p.face == R && NextPosition(n, p).Some?
    requires LegalPosition(n, NextPosition(n, p).value)
    ensures NextPosition(n, Reversed(NextPosition(n, p).value)) == Some(Reversed(p))
  {
  }

  lemma InvolutionL(n: nat, p: CubePosition)
    requires LegalPosition(n, p) && p.face == L && NextPosition(n, p).Some?
    requires LegalPosition(n, NextPosition(n, p).value)
    ensures NextPosition(n, Reversed(NextPosition(n, p).value)) == Some(Reversed(p))
  {
  }

  lemma InvolutionB(n: nat, p: CubePosition)
    requires LegalPosition(n, p) && p.face == B && NextPosition(n, p).Some?
    requires LegalPosition(n, NextPosition(n, p).value)
    ensures NextPosition(n, Reversed(NextPosition(n, p).value)) == Some(Reversed(p))
  {
  }

  lemma InvolutionD(n: nat, p: CubePosition)
    requires LegalPosition(n, p) && p.face == D && NextPosition(n, p).Some?
    requires LegalPosition(n, NextPosition(n, p).value)
    ensures NextPosition(n, Reversed(NextPosition(n, p).value)) == Some(Reversed(p))
  {
  }

  /** The canonical per-face material and the side length of the cube. */
  datatype CubeMap = CubeMap(side: nat, faces: seq<seq<seq<Material>>>)

  function FaceIndex(f: Face): (i: nat)
    ensures i < 6
  {
    match f
    case U => 0 case F => 1 case R => 2 case L => 3 case B => 4 case D => 5
  }

  predicate WellFormed(c: CubeMap) {
    && |c.faces| == 6
    && (forall f :: 0 <= f < 6 ==> |c.faces[f]| == c.side)
    && (forall f, x :: 0 <= f < 6 && 0 <= x < c.side ==> |c.faces[f][x]| == c.side)
  }

  function MaterialAt(c: CubeMap, p: CubePosition): Material
    requires WellFormed(c) && InFace(c.side, p)
  {
    c.faces[FaceIndex(p.face)][p.x][p.y]
  }

  /** The state the walker would move to, whatever material is there. */
  function Target(c: CubeMap, p: CubePosition): (q: CubePosition)
    requires LegalPosition(c.side, p)
    ensures LegalPosition(c.side, q)
  {
    NextPositionStaysLegal(c.side, p);
    NextPosition(c.side, p).value
  }

  /**
   * One attempted step: the walker moves to the target exactly when the target is Open,
   * and otherwise stays where it is, in every component.
   */
  function TryStepForward(c: CubeMap, p: CubePosition): (r: (bool, CubePosition))
    requires WellFormed(c) && LegalPosition(c.side, p)
    ensures LegalPosition(c.side, r.1)
    ensures r.0 <==> MaterialAt(c, Target(c, p)) == Open
    ensures r.1 == (if r.0 then Target(c, p) else p)
  {
    var q := Target(c, p);
    if MaterialAt(c, q) == Open then (true, q) else (false, p)
  }

  /** The state after `k` consecutive successful steps, or `None` if one of them is blocked. */
  function Walk(c: CubeMap, p: CubePosition, k: nat): Option<CubePosition>
    requires WellFormed(c) && LegalPosition(c.side, p)
    decreases k
  {
    if k == 0 then Some(p)
    else
      var q := Target(c, p);
      if MaterialAt(c, q) == Open then Walk(c, q, k - 1) else None
  }

  /**
   * Forward(amount): takes at most `amount` successful steps, and stops early exactly when the
   * next target is not Open, leaving the walker on the last cell it reached.
   */
  method MoveForward(c: CubeMap, p: CubePosition, amount: nat) returns (q: CubePosition, taken: nat)
    requires WellFormed(c) && LegalPosition(c.side, p)
    ensures taken <= amount
    ensures LegalPosition(c.side, q)
    ensures Walk(c, p, taken) == Some(q)
    ensures taken < amount ==> MaterialAt(c, Target(c, q)) != Open
  {
    q, taken := p, 0;
    while taken < amount
      invariant taken <= amount
      invariant LegalPosition(c.side, q)
      invariant Walk(c, p, taken) == Some(q)
    {
      var moved, next := TryStepForward(c, q).0, TryStepForward(c, q).1;
      if !moved {
        return;
      }
      WalkExtend(c, p, taken, q);
      q, taken := next, taken + 1;
    }
  }

  lemma {:induction false} WalkExtend(c: CubeMap, p: CubePosition, k: nat, q: CubePosition)
    requires WellFormed(c) && LegalPosition(c.side, p)
    requires Walk(c, p, k) == Some(q) && LegalPosition(c.side, q)
    requires MaterialAt(c, Target(c, q)) == Open
    ensures Walk(c, p, k + 1) == Some(Target(c, q))
    decreases k
  {
    if k > 0 {
      var p' := Target(c, p);
      WalkExtend(c, p', k - 1, q);
    }
  }

  /** Turns change the direction only, by the face's turn table; Forward moves as `MoveForward`. */
  method ApplyMovement(c: CubeMap, p: CubePosition, m: Movement) returns (q: CubePosition)
    requires WellFormed(c) && LegalPosition(c.side, p)
    ensures LegalPosition(c.side, q)
    ensures m.TurnRight? ==> q == p.(direction := CubeRotateRight(p.direction, p.face))
    ensures m.TurnLeft? ==> q == p.(direction := CubeRotateLeft(p.direction, p.face))
    ensures m.Forward? ==> exists k :: 0 <= k <= m.amount && Walk(c, p, k) == Some(q) &&
                                       (k < m.amount ==> MaterialAt(c, Target(c, q)) != Open)
  {
    match m
    case Forward(amount) =>
      var taken;
      q, taken := MoveForward(c, p, amount);
    case TurnRight =>
      TurnTableLaws(p.face, p.direction);
      q := p.(direction := CubeRotateRight(p.direction, p.face));
    case TurnLeft =>
      TurnTableLaws(p.face, p.direction);
      q := p.(direction := CubeRotateLeft(p.direction, p.face));
  }

  /** The walker's starting state: the first canonical cell of the top face, facing right. */
  const Start: CubePosition := CubePosition(U, 0, 0, Right)

  lemma StartIsLegal(n: nat)
    requires n > 0
    ensures LegalPosition(n, Start)
  {
  }
}
