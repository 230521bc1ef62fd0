/**
  The playing grid of the Connect-Four agent.

  A cell holds BLANK, RED or YELLOW. The agent works on a rows x cols array of
  cells; row 0 is the top of the board, where a column counts as open, and the
  last row is the floor. For stating what the agent computes, a grid is also
  seen as a value: a sequence of rows, each a sequence of cells.
*/
module Grid {

  datatype Cell = Blank | Red | Yellow

  /** A grid as a value: rows from top (index 0) to floor, each of equal length. */
  type Board = seq<seq<Cell>>

  /** A cell that holds a piece. */
  predicate Colored(x: Cell) {
    x == Red || x == Yellow
  }

  function Cols(b: Board): nat {
    if |b| == 0 then 0 else |b[0]|
  }

  /** A grid with at least one row and rows of equal length. */
  predicate IsGrid(b: Board) {
    |b| > 0 && forall r :: 0 <= r < |b| ==> |b[r]| == |b[0]|
  }

  predicate InBounds(b: Board, r: int, c: int) {
    0 <= r < |b| && 0 <= c < Cols(b)
  }

  /** The value held by a grid array: cell (r, c) of the result is g[r, c]. */
  ghost function Snap(g: array2<Cell>): (b: Board)
    reads g
    ensures |b| == g.Length0
    ensures forall r :: 0 <= r < |b| ==> |b[r]| == g.Length1
    ensures forall r, c :: 0 <= r < g.Length0 && 0 <= c < g.Length1 ==> b[r][c] == g[r, c]
    ensures g.Length0 > 0 ==> IsGrid(b) && Cols(b) == g.Length1
  {
    seq(g.Length0, r requires 0 <= r < g.Length0 reads g =>
      seq(g.Length1, c requires 0 <= c < g.Length1 reads g => g[r, c]))
  }

  /** An array whose cells are those of a rectangular value has that value. */
  lemma SnapIs(g: array2<Cell>, b: Board)
    requires |b| == g.Length0 && forall r :: 0 <= r < |b| ==> |b[r]| == g.Length1
    requires forall r, c :: 0 <= r < g.Length0 && 0 <= c < g.Length1 ==> g[r, c] == b[r][c]
    ensures Snap(g) == b
  {
    var a := Snap(g);
    forall r | 0 <= r < |a|
      ensures a[r] == b[r]
    {
      assert |a[r]| == |b[r]|;
      forall c | 0 <= c < |a[r]|
        ensures a[r][c] == b[r][c]
      {
      }
    }
  }
}
