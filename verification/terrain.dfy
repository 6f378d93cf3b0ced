/** Cell contents and movement instructions shared by both walkers of day 22. */
module Terrain {

  import opened Common

  /** A cell of the map: open floor, a wall, or empty space outside the net. */
  datatype Material = Open | Wall | Void

  /** The unfolded map: a ragged grid of rows, indexed (row, column). */
  type Grid = seq<seq<Material>>

  /** One instruction of the path: walk forward up to `amount` cells, or turn in place. */
  datatype Movement = Forward(amount: nat) | TurnRight | TurnLeft

  /** The first column of a row that is part of the net, if there is one. */
  function FirstSolid(row: seq<Material>): (r: Option<nat>)
    ensures r.Some? ==> r.value < |row| && row[r.value] != Void
    ensures r.Some? ==> forall i :: 0 <= i < r.value ==> row[i] == Void
    ensures r.None? <==> forall i :: 0 <= i < |row| ==> row[i] == Void
  {
    if |row| == 0 then None
    else if row[0] != Void then Some(0)
    else match FirstSolid(row[1..])
      case None => None
      case Some(i) => Some(i + 1)
  }
}
