/**
 * Direction and orientation tables of the cube-surface walker (day 22).
 *
 * A cube face is one of six fixed labels. A walker on a face moves in one of the
 * six `CubeDirection`s expressed in that face's own canonical frame; on every face
 * exactly four of them lie in the face's plane. An `Orientation` records which face a
 * block of the unfolded net is, and by how many quarter turns it is rotated.
 */
module CubeTables {

  import opened Common
  import Flat = FlatDirections

  datatype Face = U | F | R | L | B | D

  /** The 24 orientations, in the source's declaration order (four per face). */
  datatype Orientation =
    | UF | UR | UB | UL | FD | FR | FU | FL
    | RD | RB | RU | RF | LD | LF | LU | LB
    | BD | BL | BU | BR | DB | DR | DF | DL

  function OrientationIndex(o: Orientation): (i: nat)
    ensures i < 24
  {
    match o
    case UF => 0 case UR => 1 case UB => 2 case UL => 3
    case FD => 4 case FR => 5 case FU => 6 case FL => 7
    case RD => 8 case RB => 9 case RU => 10 case RF => 11
    case LD => 12 case LF => 13 case LU => 14 case LB => 15
    case BD => 16 case BL => 17 case BU => 18 case BR => 19
    case DB => 20 case DR => 21 case DF => 22 case DL => 23
  }

  const AllOrientations: seq<Orientation> :=
    [UF, UR, UB, UL, FD, FR, FU, FL, RD, RB, RU, RF, LD, LF, LU, LB, BD, BL, BU, BR, DB, DR, DF, DL]

  lemma OrientationIndexIsPosition(o: Orientation)
    ensures AllOrientations[OrientationIndex(o)] == o
  {
    match TopFace(o)
    case U => IndexIsPositionOn(o, U);
    case F => IndexIsPositionOn(o, F);
    case R => IndexIsPositionOn(o, R);
    case L => IndexIsPositionOn(o, L);
    case B => IndexIsPositionOn(o, B);
    case D => IndexIsPositionOn(o, D);
  }

  lemma IndexIsPositionOn(o: Orientation, face: Face)
    requires TopFace(o) == face
    ensures AllOrientations[OrientationIndex(o)] == o
  {
  }

  /** Quarter turns of an orientation relative to the canonical frame of its face. */
  function Rotation(o: Orientation): nat {
    OrientationIndex(o) % 4
  }

  function TopFace(o: Orientation): Face {
    match o
    case UF | UR | UB | UL => U
    case FD | FR | FU | FL => F
    case RD | RB | RU | RF => R
    case LD | LF | LU | LB => L
    case BD | BL | BU | BR => B
    case DB | DR | DF | DL => D
  }

  /** An orientation is determined by its face and its rotation; each pair occurs once. */
  lemma OrientationFaceRotationBijective(o1: Orientation, o2: Orientation)
    ensures Rotation(o1) < 4
    ensures TopFace(o1) == TopFace(o2) && Rotation(o1) == Rotation(o2) <==> o1 == o2
  {
  }

  datatype FoldDirection = FoldUp | FoldDown | FoldLeft | FoldRight

  function FoldOpposite(f: FoldDirection): FoldDirection {
    match f
    case FoldUp => FoldDown
    case FoldDown => FoldUp
    case FoldLeft => FoldRight
    case FoldRight => FoldLeft
  }

  /**
   * How the cube's orientation changes when the net is folded over an edge in direction
   * `fold`: the source's four 24-entry tables, one row per orientation.
   */
  function NextOrientation(o: Orientation, fold: FoldDirection): Orientation {
    match o
    case UF => (match fold case FoldUp => BU case FoldDown => FD case FoldLeft => LF case FoldRight => RF)
    case UR => (match fold case FoldUp => LU case FoldDown => RD case FoldLeft => FR case FoldRight => BR)
    case UB => (match fold case FoldUp => FU case FoldDown => BD case FoldLeft => RB case FoldRight => LB)
    case UL => (match fold case FoldUp => RU case FoldDown => LD case FoldLeft => BL case FoldRight => FL)
    case FD => (match fold case FoldUp => UF case FoldDown => DB case FoldLeft => LD case FoldRight => RD)
    case FR => (match fold case FoldUp => LF case FoldDown => RB case FoldLeft => DR case FoldRight => UR)
    case FU => (match fold case FoldUp => DF case FoldDown => UB case FoldLeft => RU case FoldRight => LU)
    case FL => (match fold case FoldUp => RF case FoldDown => LB case FoldLeft => UL case FoldRight => DL)
    case RD => (match fold case FoldUp => UR case FoldDown => DL case FoldLeft => FD case FoldRight => BD)
    case RB => (match fold case FoldUp => FR case FoldDown => BL case FoldLeft => DB case FoldRight => UB)
    case RU => (match fold case FoldUp => DR case FoldDown => UL case FoldLeft => BU case FoldRight => FU)
    case RF => (match fold case FoldUp => BR case FoldDown => FL case FoldLeft => UF case FoldRight => DF)
    case LD => (match fold case FoldUp => UL case FoldDown => DR case FoldLeft => BD case FoldRight => FD)
    case LF => (match fold case FoldUp => BL case FoldDown => FR case FoldLeft => DF case FoldRight => UF)
    case LU => (match fold case FoldUp => DL case FoldDown => UR case FoldLeft => FU case FoldRight => BU)
    case LB => (match fold case FoldUp => FL case FoldDown => BR case FoldLeft => UB case FoldRight => DB)
    case BD => (match fold case FoldUp => UB case FoldDown => DF case FoldLeft => RD case FoldRight => LD)
    case BL => (match fold case FoldUp => RB case FoldDown => LF case FoldLeft => DL case FoldRight => UL)
    case BU => (match fold case FoldUp => DB case FoldDown => UF case FoldLeft => LU case FoldRight => RU)
    case BR => (match fold case FoldUp => LB case FoldDown => RF case FoldLeft => UR case FoldRight => DR)
    case DB => (match fold case FoldUp => FD case FoldDown => BU case FoldLeft => LB case FoldRight => RB)
    case DR => (match fold case FoldUp => LD case FoldDown => RU case FoldLeft => BR case FoldRight => FR)
    case DF => (match fold case FoldUp => BD case FoldDown => FU case FoldLeft => RF case FoldRight => LF)
    case DL => (match fold case FoldUp => RD case FoldDown => LU case FoldLeft => FL case FoldRight => BL)
  }

  /**
   * Folding over an edge and back over the same edge restores the orientation, and every fold
   * brings a different face to the top.
   */
  lemma FoldInverseAndMoves(o: Orientation, fold: FoldDirection)
    ensures NextOrientation(NextOrientation(o, fold), FoldOpposite(fold)) == o
    ensures TopFace(NextOrientation(o, fold)) != TopFace(o)
  {
    match fold
    case FoldUp => FoldUpInverse(o);
    case FoldDown => FoldDownInverse(o);
    case FoldLeft => FoldLeftInverse(o);
    case FoldRight => FoldRightInverse(o);
  }

  lemma FoldUpInverse(o: Orientation)
    ensures NextOrientation(NextOrientation(o, FoldUp), FoldDown) == o
    ensures TopFace(NextOrientation(o, FoldUp)) != TopFace(o)
  {
  }

  lemma FoldDownInverse(o: Orientation)
    ensures NextOrientation(NextOrientation(o, FoldDown), FoldUp) == o
    ensures TopFace(NextOrientation(o, FoldDown)) != TopFace(o)
  {
  }

  lemma FoldLeftInverse(o: Orientation)
    ensures NextOrientation(NextOrientation(o, FoldLeft), FoldRight) == o
    ensures TopFace(NextOrientation(o, FoldLeft)) != TopFace(o)
  {
  }

  lemma FoldRightInverse(o: Orientation)
    ensures NextOrientation(NextOrientation(o, FoldRight), FoldLeft) == o
    ensures TopFace(NextOrientation(o, FoldRight)) != TopFace(o)
  {
  }

  /** The four folds from one orientation reach four different faces. */
  lemma FoldsReachDistinctFaces(o: Orientation, f1: FoldDirection, f2: FoldDirection)
    requires f1 != f2
    ensures TopFace(NextOrientation(o, f1)) != TopFace(NextOrientation(o, f2))
  {
    FoldsFromOrientation(o);
  }

  /** The faces the four folds from `o` reach, in the order up, down, left, right. */
  lemma FoldsFromOrientation(o: Orientation)
    ensures var u, d, l, r := TopFace(NextOrientation(o, FoldUp)), TopFace(NextOrientation(o, FoldDown)),
                              TopFace(NextOrientation(o, FoldLeft)), TopFace(NextOrientation(o, FoldRight));
      u != d && u != l && u != r && d != l && d != r && l != r
  {
    match TopFace(o)
    case U => FoldsFromU(o);
    case F => FoldsFromF(o);
    case R => FoldsFromR(o);
    case L => FoldsFromL(o);
    case B => FoldsFromB(o);
    case D => FoldsFromD(o);
  }

  lemma FoldsFromU(o: Orientation)
    requires TopFace(o) == U
    ensures var u, d, l, r := TopFace(NextOrientation(o, FoldUp)), TopFace(NextOrientation(o, FoldDown)),
                              TopFace(NextOrientation(o, FoldLeft)), TopFace(NextOrientation(o, FoldRight));
      u != d && u != l && u != r && d != l && d != r && l != r
  {
  }

  lemma FoldsFromF(o: Orientation)
    requires TopFace(o) == F
    ensures var u, d, l, r := TopFace(NextOrientation(o, FoldUp)), TopFace(NextOrientation(o, FoldDown)),
                              TopFace(NextOrientation(o, FoldLeft)), TopFace(NextOrientation(o, FoldRight));
      u != d && u != l && u != r && d != l && d != r && l != r
  {
  }

  lemma FoldsFromR(o: Orientation)
    requires TopFace(o) == R
    ensures var u, d, l, r := TopFace(NextOrientation(o, FoldUp)), TopFace(NextOrientation(o, FoldDown)),
                              TopFace(NextOrientation(o, FoldLeft)), TopFace(NextOrientation(o, FoldRight));
      u != d && u != l && u != r && d != l && d != r && l != r
  {
  }

  lemma FoldsFromL(o: Orientation)
    requires TopFace(o) == L
    ensures var u, d, l, r := TopFace(NextOrientation(o, FoldUp)), TopFace(NextOrientation(o, FoldDown)),
                              TopFace(NextOrientation(o, FoldLeft)), TopFace(NextOrientation(o, FoldRight));
      u != d && u != l && u != r && d != l && d != r && l != r
  {
  }

  lemma FoldsFromB(o: Orientation)
    requires TopFace(o) == B
    ensures var u, d, l, r := TopFace(NextOrientation(o, FoldUp)), TopFace(NextOrientation(o, FoldDown)),
                              TopFace(NextOrientation(o, FoldLeft)), TopFace(NextOrientation(o, FoldRight));
      u != d && u != l && u != r && d != l && d != r && l != r
  {
  }

  lemma FoldsFromD(o: Orientation)
    requires TopFace(o) == D
    ensures var u, d, l, r := TopFace(NextOrientation(o, FoldUp)), TopFace(NextOrientation(o, FoldDown)),
                              TopFace(NextOrientation(o, FoldLeft)), TopFace(NextOrientation(o, FoldRight));
      u != d && u != l && u != r && d != l && d != r && l != r
  {
  }

  /** Directions relative to a face's canonical frame; In and Out point into and out of the page. */
  datatype CubeDirection = Up | Down | Left | Right | In | Out

  function CubeIndex(d: CubeDirection): (i: nat)
    ensures i < 6
  {
    match d
    case Up => 0 case Down => 1 case Left => 2 case Right => 3 case In => 4 case Out => 5
  }

  function CubeReverse(d: CubeDirection): CubeDirection {
    match d
    case Up => Down
    case Down => Up
    case Left => Right
    case Right => Left
    case In => Out
    case Out => In
  }

  /** The four directions that lie in the plane of a face. */
  predicate Legal(face: Face, d: CubeDirection) {
    match face
    case U | D => d != Up && d != Down
    case F | B => d != In && d != Out
    case R | L => d != Left && d != Right
  }

  function CubeRotateRight(d: CubeDirection, face: Face): CubeDirection {
    var i := CubeIndex(d);
    match face
    case U => [Up, Down, In, Out, Right, Left][i]
    case F => [Right, Left, Up, Down, In, Out][i]
    case R => [In, Out, Left, Right, Down, Up][i]
    case L => [Out, In, Left, Right, Up, Down][i]
    case B => [Left, Right, Down, Up, In, Out][i]
    case D => [Up, Down, Out, In, Left, Right][i]
  }

  function CubeRotateLeft(d: CubeDirection, face: Face): CubeDirection {
    var i := CubeIndex(d);
    match face
    case U => [Up, Down, Out, In, Left, Right][i]
    case F => [Left, Right, Down, Up, In, Out][i]
    case R => [Out, In, Left, Right, Up, Down][i]
    case L => [In, Out, Left, Right, Down, Up][i]
    case B => [Right, Left, Up, Down, In, Out][i]
    case D => [Up, Down, In, Out, Right, Left][i]
  }

  /**
   * On every face the two turn tables are mutually inverse, keep legal directions legal,
   * make a quarter turn (never fixing or reversing a legal direction), and four right
   * turns are the identity.
   */
  lemma TurnTableLaws(face: Face, d: CubeDirection)
    ensures CubeRotateLeft(CubeRotateRight(d, face), face) == d
    ensures CubeRotateRight(CubeRotateLeft(d, face), face) == d
    ensures Legal(face, d) ==> Legal(face, CubeRotateRight(d, face)) && Legal(face, CubeRotateLeft(d, face))
    ensures Legal(face, d) ==> CubeRotateRight(d, face) != d && CubeRotateRight(d, face) != CubeReverse(d)
    ensures Legal(face, d) ==> CubeRotateRight(CubeRotateRight(d, face), face) == CubeReverse(d)
    ensures var r := (e: CubeDirection) => CubeRotateRight(e, face); r(r(r(r(d)))) == d
  {
  }

  /** The flat direction each legal cube direction of a face points to in the canonical (unrotated) net. */
  function CanonicalDirectionTranslation(face: Face): seq<Option<Flat.FlatDirection>> {
    match face
    case U => [None, None, Some(Flat.Left), Some(Flat.Right), Some(Flat.Up), Some(Flat.Down)]
    case F => [Some(Flat.Up), Some(Flat.Down), Some(Flat.Left), Some(Flat.Right), None, None]
    case R => [Some(Flat.Up), Some(Flat.Down), None, None, Some(Flat.Right), Some(Flat.Left)]
    case L => [Some(Flat.Up), Some(Flat.Down), None, None, Some(Flat.Left), Some(Flat.Right)]
    case B => [Some(Flat.Up), Some(Flat.Down), Some(Flat.Right), Some(Flat.Left), None, None]
    case D => [None, None, Some(Flat.Left), Some(Flat.Right), Some(Flat.Down), Some(Flat.Up)]
  }

  /** Rotates a flat direction by the quarter turns of an orientation's rotation class. */
  function RotateByClass(d: Flat.FlatDirection, rotation: nat): Flat.FlatDirection
    requires rotation < 4
  {
    if rotation == 0 then d
    else if rotation == 1 then Flat.RotateRight(d)
    else if rotation == 2 then Flat.Reverse(d)
    else Flat.RotateLeft(d)
  }

  function MapOption(o: Option<Flat.FlatDirection>, rotation: nat): Option<Flat.FlatDirection>
    requires rotation < 4
  {
    match o
    case None => None
    case Some(d) => Some(RotateByClass(d, rotation))
  }

  /** The direction translator row stored for the face an orientation brings to the top. */
  function ActualDirectionTranslation(o: Orientation): (row: seq<Option<Flat.FlatDirection>>)
    ensures |row| == 6
  {
    var canonical := CanonicalDirectionTranslation(TopFace(o));
    seq(6, i requires 0 <= i < 6 => MapOption(canonical[i], Rotation(o)))
  }

  /** Looks a cube direction up in a translator row. */
  function Translate(row: seq<Option<Flat.FlatDirection>>, d: CubeDirection): Option<Flat.FlatDirection>
    requires |row| == 6
  {
    row[CubeIndex(d)]
  }

  /** Rotating by a class is a bijection of the four flat directions. */
  lemma RotateByClassInjective(d1: Flat.FlatDirection, d2: Flat.FlatDirection, rotation: nat)
    requires rotation < 4
    ensures RotateByClass(d1, rotation) == RotateByClass(d2, rotation) <==> d1 == d2
    ensures RotateByClass(Flat.RotateRight(d1), rotation) == Flat.RotateRight(RotateByClass(d1, rotation))
  {
  }

  /**
   * A translator row is defined exactly on the legal directions of its face, and the four
   * defined entries are pairwise distinct flat directions.
   */
  lemma TranslationRowShape(o: Orientation, d1: CubeDirection, d2: CubeDirection)
    ensures Translate(ActualDirectionTranslation(o), d1).Some? <==> Legal(TopFace(o), d1)
    ensures Legal(TopFace(o), d1) && Legal(TopFace(o), d2) && d1 != d2 ==>
              Translate(ActualDirectionTranslation(o), d1) != Translate(ActualDirectionTranslation(o), d2)
  {
    var face, rot := TopFace(o), Rotation(o);
    var canonical := CanonicalDirectionTranslation(face);
    var row := ActualDirectionTranslation(o);
    CanonicalRowShape(face, d1, d2);
    assert row[CubeIndex(d1)] == MapOption(canonical[CubeIndex(d1)], rot);
    assert row[CubeIndex(d2)] == MapOption(canonical[CubeIndex(d2)], rot);
    if Legal(face, d1) && Legal(face, d2) && d1 != d2 {
      RotateByClassInjective(canonical[CubeIndex(d1)].value, canonical[CubeIndex(d2)].value, rot);
    }
  }

  /** The canonical row of a face is defined exactly on its legal directions, without repeats. */
  lemma CanonicalRowShape(face: Face, d1: CubeDirection, d2: CubeDirection)
    ensures |CanonicalDirectionTranslation(face)| == 6
    ensures CanonicalDirectionTranslation(face)[CubeIndex(d1)].Some? <==> Legal(face, d1)
    ensures Legal(face, d1) && Legal(face, d2) && d1 != d2 ==>
              CanonicalDirectionTranslation(face)[CubeIndex(d1)] != CanonicalDirectionTranslation(face)[CubeIndex(d2)]
  {
  }

  /** Each translator row has exactly two undefined entries: the out-of-plane pair. */
  lemma TranslationRowHasTwoNones(o: Orientation)
    ensures |set i | 0 <= i < 6 && ActualDirectionTranslation(o)[i].None?| == 2
  {
    var row := ActualDirectionTranslation(o);
    var nones := set i | 0 <= i < 6 && row[i].None?;
    match TopFace(o)
    case U => assert nones == {0, 1};
    case D => assert nones == {0, 1};
    case F => assert nones == {4, 5};
    case B => assert nones == {4, 5};
    case R => assert nones == {2, 3};
    case L => assert nones == {2, 3};
  }

  /** Turning right on the cube is turning right in the net, whatever the orientation of the face. */
  lemma TurnAgreesWithNet(o: Orientation, d: CubeDirection)
    requires Legal(TopFace(o), d)
    ensures Translate(ActualDirectionTranslation(o), CubeRotateRight(d, TopFace(o))).Some?
    ensures Translate(ActualDirectionTranslation(o), CubeRotateRight(d, TopFace(o))).value
            == Flat.RotateRight(Translate(ActualDirectionTranslation(o), d).value)
  {
    var face := TopFace(o);
    var rot := Rotation(o);
    var canonical := CanonicalDirectionTranslation(face);
    var d' := CubeRotateRight(d, face);
    CanonicalTurn(face, d);
    var c := canonical[CubeIndex(d)].value;
    RotateByClassInjective(c, c, rot);
    assert ActualDirectionTranslation(o)[CubeIndex(d)] == MapOption(canonical[CubeIndex(d)], rot);
    assert ActualDirectionTranslation(o)[CubeIndex(d')] == MapOption(canonical[CubeIndex(d')], rot);
  }

  /** In the canonical net, a right turn on a face is a right turn of the flat direction. */
  lemma CanonicalTurn(face: Face, d: CubeDirection)
    requires Legal(face, d)
    ensures CanonicalDirectionTranslation(face)[CubeIndex(d)].Some?
    ensures CanonicalDirectionTranslation(face)[CubeIndex(CubeRotateRight(d, face))].Some?
    ensures CanonicalDirectionTranslation(face)[CubeIndex(CubeRotateRight(d, face))].value
            == Flat.RotateRight(CanonicalDirectionTranslation(face)[CubeIndex(d)].value)
  {
  }

}
