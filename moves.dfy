/** Moves: a swipe exchanges a cell with its neighbour; a move is feasible
    when that exchange makes a match. */
module Moves {
  import opened Grid
  import opened Detection

  /** Swapping (r, c) with its neighbour in direction `d` stays on the board
      and the swapped board holds a match. */
  ghost predicate SwapMakesMatch(g: Board, r: int, c: int, d: Direction)
    requires IsGrid(g) && OnGrid(r, c)
  {
    var (nr, nc) := Neighbour(r, c, d);
    OnGrid(nr, nc) && HasMatch(SwapCells(g, r, c, nr, nc))
  }

  /** The occupied cell (r, c) can be swiped in some direction to make a match. */
  ghost predicate Movable(g: Board, r: int, c: int)
    requires IsGrid(g) && OnGrid(r, c)
  {
    g[r][c] != Empty &&
    (SwapMakesMatch(g, r, c, Up) || SwapMakesMatch(g, r, c, Down) ||
     SwapMakesMatch(g, r, c, Left) || SwapMakesMatch(g, r, c, Right))
  }

  /** Some occupied cell has a swipe that makes a match. */
  ghost predicate HasFeasibleMove(g: Board)
    requires IsGrid(g)
  {
    exists r, c :: OnGrid(r, c) && Movable(g, r, c)
  }

  /** The cell a player names by its number 1 .. 16, counted row by row
      from the top left: the row is the whole part of cellspace / 4.1 and
      the column is (cellspace mod 4) - 1, or 3 when that remainder is 0. */
  function CellOf(cellspace: int): (rc: (int, int))
    requires 1 <= cellspace <= 16
    ensures OnGrid(rc.0, rc.1)
    ensures rc.0 * Size + rc.1 + 1 == cellspace
    ensures rc == ((cellspace - 1) / 4, (cellspace - 1) % 4)
  {
    (cellspace * 10 / 41, if cellspace % 4 != 0 then cellspace % 4 - 1 else 3)
  }
}
