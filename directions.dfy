/** The fixed neighbour geometry of the tile generator: eight offsets with
    stable indices 0-7 (four orthogonal, then four diagonal) and the table
    that turns an orthogonal offset into the index of the opposite one. */
module Directions {

  /** A grid position, or an offset between two positions. */
  type Pos = (int, int)

  /** The index of one of the eight neighbour offsets. */
  type Dir = d: int | 0 <= d < 8

  /** right, up, left, down (in the source's drawing: 0 to the right,
      1 above, 2 to the left, 3 below). */
  const AdjacentNeighbors: seq<Pos> := [(1, 0), (0, -1), (-1, 0), (0, 1)]

  const DiagonalNeighbors: seq<Pos> := [(1, -1), (-1, -1), (-1, 1), (1, 1)]

  /** The list the counting loop enumerates: its index is the direction. */
  const Neighbors: seq<Pos> := AdjacentNeighbors + DiagonalNeighbors

  /** Given the offset that leads from a cell to one of its orthogonal
      neighbours, the direction index under which that neighbour sees the cell. */
  const InverseNeighbor: map<Pos, Dir> := map[(1, 0) := 2, (0, -1) := 3, (-1, 0) := 0, (0, 1) := 1]

  function Negate(o: Pos): Pos {
    (-o.0, -o.1)
  }

  /** Component-wise sum of two pairs. */
  function TupleSum(a: Pos, b: Pos): Pos {
    (a.0 + b.0, a.1 + b.1)
  }

  function Offset(d: Dir): Pos {
    Neighbors[d]
  }

  /** The direction whose offset is the negation of the offset of d:
      right/left and up/down among the orthogonal ones, the two diagonals
      pairwise among the rest. On the orthogonal directions it agrees with
      InverseNeighbor. */
  function Opposite(d: Dir): (e: Dir)
    ensures Offset(e) == Negate(Offset(d))
    ensures (d < 4) == (e < 4)
    ensures d < 4 ==> Offset(d) in InverseNeighbor && e == InverseNeighbor[Offset(d)]
  {
    if d < 4 then (d + 2) % 4 else 4 + (d - 2) % 4
  }

  lemma OppositeInvolutive(d: Dir)
    ensures Opposite(Opposite(d)) == d
  {
  }

  /** The inverse table is defined on exactly the four orthogonal offsets,
      and for each of them names the offset pointing back. */
  lemma InverseNeighborPointsBack()
    ensures InverseNeighbor.Keys == set i | 0 <= i < 4 :: AdjacentNeighbors[i]
    ensures forall o :: o in InverseNeighbor ==> Offset(InverseNeighbor[o]) == Negate(o)
  {
    assert Offset(2) == (-1, 0) && Offset(3) == (0, 1) && Offset(0) == (1, 0) && Offset(1) == (0, -1);
    assert AdjacentNeighbors[0] == (1, 0) && AdjacentNeighbors[1] == (0, -1);
    assert AdjacentNeighbors[2] == (-1, 0) && AdjacentNeighbors[3] == (0, 1);
  }
}
