/**
 * The four directions of the flat (unfolded) map of day 22, shared by the flat
 * wraparound walker and the direction translators of the cube walker.
 */
module FlatDirections {

  /** Directions in the flat net; the declaration order is the source's discriminant order. */
  datatype FlatDirection = Right | Down | Left | Up

  function RotateRight(d: FlatDirection): FlatDirection {
    match d
    case Up => Right
    case Down => Left
    case Left => Up
    case Right => Down
  }

  function RotateLeft(d: FlatDirection): FlatDirection {
    match d
    case Up => Left
    case Down => Right
    case Left => Down
    case Right => Up
  }

  function Reverse(d: FlatDirection): FlatDirection {
    match d
    case Up => Down
    case Down => Up
    case Left => Right
    case Right => Left
  }

  /** The (row, column) displacement of one step in a flat direction. */
  function Delta(d: FlatDirection): (int, int) {
    match d
    case Up => (-1, 0)
    case Down => (1, 0)
    case Left => (0, -1)
    case Right => (0, 1)
  }

  /** Number of quarter turns clockwise from Right: the source's discriminant. */
  function Index(d: FlatDirection): nat {
    match d
    case Right => 0
    case Down => 1
    case Left => 2
    case Up => 3
  }

  /** Turning left undoes turning right, reversing is two right turns, four right turns are nothing. */
  lemma RotationLaws(d: FlatDirection)
    ensures RotateLeft(RotateRight(d)) == d
    ensures RotateRight(RotateLeft(d)) == d
    ensures Reverse(d) == RotateRight(RotateRight(d))
    ensures Reverse(Reverse(d)) == d
    ensures RotateRight(RotateRight(RotateRight(RotateRight(d)))) == d
    ensures Index(RotateRight(d)) == (Index(d) + 1) % 4
    ensures Delta(Reverse(d)) == (-Delta(d).0, -Delta(d).1)
  {
  }
}
