/**
  Dropping a piece into a column (the environment's `perceive`).

  The agent's source calls `perceive(m, grid, colour)` but does not define it;
  the definition lives in a base class that is not part of this model. What
  follows is an ASSUMED contract for it, taken from how the agent uses it: the
  piece falls to the lowest blank row of column m, and nothing else changes.
*/
module Gravity {
  import opened Grid

  /** The highest-index (lowest on the board) blank row of column col at or above row r. */
  function LowestBlank(b: Board, col: int, r: int): (row: nat)
    requires IsGrid(b) && 0 <= col < Cols(b) && 0 <= r < |b|
    requires b[0][col] == Blank
    ensures row <= r && b[row][col] == Blank
    ensures forall k :: row < k <= r ==> b[k][col] != Blank
    decreases r
  {
    if b[r][col] == Blank then r else LowestBlank(b, col, r - 1)
  }

  /** The landing row of a piece dropped into an open column. */
  function LandingRow(b: Board, col: int): nat
    requires IsGrid(b) && 0 <= col < Cols(b) && b[0][col] == Blank
  {
    LowestBlank(b, col, |b| - 1)
  }

  /** The grid after a piece of the given colour falls into open column col. */
  function Drop(b: Board, col: int, colour: Cell): (d: Board)
    requires IsGrid(b) && 0 <= col < Cols(b) && b[0][col] == Blank
    ensures IsGrid(d) && |d| == |b| && Cols(d) == Cols(b)
  {
    var row := LandingRow(b, col);
    b[row := b[row][col := colour]]
  }

  /** Gravity: in every column the pieces form an unbroken stack on the floor. */
  predicate Settled(b: Board)
    requires IsGrid(b)
  {
    forall r, c :: 0 <= r < |b| - 1 && 0 <= c < Cols(b) ==> Supported(b, r, c)
  }

  /** A piece at (r, c) rests on another piece. */
  predicate Supported(b: Board, r: int, c: int)
    requires IsGrid(b) && 0 <= r < |b| - 1 && 0 <= c < Cols(b)
  {
    b[r][c] != Blank ==> b[r + 1][c] != Blank
  }

  /**
    A drop of a piece changes exactly one cell: the lowest blank cell of the
    column, which becomes the piece.
  */
  lemma DropChangesOneCell(b: Board, col: int, colour: Cell)
    requires IsGrid(b) && 0 <= col < Cols(b) && b[0][col] == Blank
    requires Colored(colour)
    ensures var d, row := Drop(b, col, colour), LandingRow(b, col);
      && b[row][col] == Blank && d[row][col] == colour
      && (forall k :: row < k < |b| ==> b[k][col] != Blank)
      && (forall r, c :: InBounds(b, r, c) ==> (d[r][c] != b[r][c] <==> r == row && c == col))
  {
  }

  /**
    On a settled grid the piece lands on the floor or on top of another piece,
    every cell above it stays blank, and the grid stays settled.
  */
  lemma {:induction false} DropKeepsSettled(b: Board, col: int, colour: Cell)
    requires IsGrid(b) && 0 <= col < Cols(b) && b[0][col] == Blank
    requires Settled(b) && Colored(colour)
    ensures var d, row := Drop(b, col, colour), LandingRow(b, col);
      && (row == |b| - 1 || b[row + 1][col] != Blank)
      && (forall k :: 0 <= k <= row ==> b[k][col] == Blank)
      && Settled(d)
  {
    var d, row := Drop(b, col, colour), LandingRow(b, col);
    forall k | 0 <= k <= row
      ensures b[k][col] == Blank
    {
      BlankAbove(b, col, k, row);
    }
    forall r, c | 0 <= r < |d| - 1 && 0 <= c < Cols(d)
      ensures Supported(d, r, c)
    {
      assert Supported(b, r, c);
    }
  }

  /** On a settled grid a blank cell has only blank cells above it. */
  lemma {:induction false} BlankAbove(b: Board, col: int, k: int, row: int)
    requires IsGrid(b) && 0 <= col < Cols(b) && Settled(b)
    requires 0 <= k <= row < |b| && b[row][col] == Blank
    ensures b[k][col] == Blank
    decreases row - k
  {
    if k < row {
      BlankAbove(b, col, k + 1, row);
      assert Supported(b, k, col);
    }
  }
}
