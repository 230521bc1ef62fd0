/**
  The win detector: four cells of one colour in a line, scanned in row-major
  order, scored +10 for the agent and -10 for the opponent.
*/
module WinDetection {
  import opened Grid

  /** Score of a position won by the agent. */
  const WIN := 10
  /** Score of a position won by the opponent. */
  const LOSS := -10

  /** The cell i steps from (r, c) in direction (dr, dc) lies in the grid and has the colour of (r, c). */
  predicate Matches(b: Board, r: int, c: int, dr: int, dc: int, i: int)
    requires IsGrid(b) && InBounds(b, r, c)
  {
    InBounds(b, r + i * dr, c + i * dc) && b[r + i * dr][c + i * dc] == b[r][c]
  }

  /** Four cells starting at a piece at (r, c) in direction (dr, dc) share its colour. */
  predicate Run(b: Board, r: int, c: int, dr: int, dc: int)
    requires IsGrid(b) && InBounds(b, r, c)
  {
    && Colored(b[r][c])
    && Matches(b, r, c, dr, dc, 1)
    && Matches(b, r, c, dr, dc, 2)
    && Matches(b, r, c, dr, dc, 3)
  }

  /** Four to the right. */
  predicate Horizontal(b: Board, r: int, c: int)
    requires IsGrid(b) && InBounds(b, r, c)
  {
    Run(b, r, c, 0, 1)
  }

  /** Four downward. */
  predicate Vertical(b: Board, r: int, c: int)
    requires IsGrid(b) && InBounds(b, r, c)
  {
    Run(b, r, c, 1, 0)
  }

  /** Four towards the bottom right. */
  predicate DiagonalBottomRight(b: Board, r: int, c: int)
    requires IsGrid(b) && InBounds(b, r, c)
  {
    Run(b, r, c, 1, 1)
  }

  /** Four towards the top right. */
  predicate DiagonalTopRight(b: Board, r: int, c: int)
    requires IsGrid(b) && InBounds(b, r, c)
  {
    Run(b, r, c, -1, 1)
  }

  /** A run of four in some direction starts at (r, c). */
  predicate StartsRun(b: Board, r: int, c: int)
    requires IsGrid(b) && InBounds(b, r, c)
  {
    Horizontal(b, r, c) || Vertical(b, r, c) || DiagonalBottomRight(b, r, c) || DiagonalTopRight(b, r, c)
  }

  /** (r, c) comes strictly before (r', c') in row-major order. */
  predicate Before(r: int, c: int, r': int, c': int) {
    r < r' || (r == r' && c < c')
  }

  /** No cell before (r, c) in row-major order starts a run. */
  ghost predicate NoRunBefore(b: Board, r: int, c: int)
    requires IsGrid(b)
  {
    forall r', c' :: InBounds(b, r', c') && Before(r', c', r, c) ==> !StartsRun(b, r', c')
  }

  /** No cell starts a run. */
  ghost predicate NoRun(b: Board)
    requires IsGrid(b)
  {
    forall r, c :: InBounds(b, r, c) ==> !StartsRun(b, r, c)
  }

  /** (r, c) is the first cell, in row-major order, that starts a run. */
  ghost predicate FirstRun(b: Board, r: int, c: int)
    requires IsGrid(b)
  {
    InBounds(b, r, c) && StartsRun(b, r, c) && NoRunBefore(b, r, c)
  }

  datatype Pos = Pos(row: int, col: int)

  /** The first run-starting cell at or after (r, c) in row-major order, if any. */
  function ScanFrom(b: Board, r: nat, c: nat): (s: Option<Pos>)
    requires IsGrid(b)
    ensures s.Some? ==> InBounds(b, s.value.row, s.value.col) && StartsRun(b, s.value.row, s.value.col)
    decreases |b| - r, Cols(b) - c
  {
    if r >= |b| then None
    else if c >= Cols(b) then ScanFrom(b, r + 1, 0)
    else if StartsRun(b, r, c) then Some(Pos(r, c))
    else ScanFrom(b, r, c + 1)
  }

  datatype Option<T> = None | Some(value: T)

  /** The value of a grid for the side that is not `opp`: the colour of the first run decides. */
  function TerminalValue(b: Board, opp: Cell): int
    requires IsGrid(b)
  {
    match ScanFrom(b, 0, 0)
    case None => 0
    case Some(p) => if b[p.row][p.col] == opp then LOSS else WIN
  }

  /**
    The scan from (r, c) finds nothing exactly when no cell at or after (r, c)
    starts a run, and otherwise finds the first such cell.
  */
  lemma {:induction false} ScanFromSpec(b: Board, r: nat, c: nat)
    requires IsGrid(b) && NoRunBefore(b, r, c)
    ensures ScanFrom(b, r, c).None? <==> NoRun(b)
    ensures ScanFrom(b, r, c).Some? ==> FirstRun(b, ScanFrom(b, r, c).value.row, ScanFrom(b, r, c).value.col)
    decreases |b| - r, Cols(b) - c
  {
    if r >= |b| {
      assert NoRun(b) by {
        forall r', c' | InBounds(b, r', c')
          ensures !StartsRun(b, r', c')
        {
          assert Before(r', c', r, c);
        }
      }
    } else if c >= Cols(b) {
      assert NoRunBefore(b, r + 1, 0) by {
        forall r', c' | InBounds(b, r', c') && Before(r', c', r + 1, 0)
          ensures !StartsRun(b, r', c')
        {
          assert Before(r', c', r, c);
        }
      }
      ScanFromSpec(b, r + 1, 0);
    } else if StartsRun(b, r, c) {
    } else {
      assert NoRunBefore(b, r, c + 1) by {
        forall r', c' | InBounds(b, r', c') && Before(r', c', r, c + 1)
          ensures !StartsRun(b, r', c')
        {
          if r' != r || c' != c {
            assert Before(r', c', r, c);
          }
        }
      }
      ScanFromSpec(b, r, c + 1);
    }
  }

  /** There is at most one first run. */
  lemma FirstRunUnique(b: Board, r: int, c: int, r': int, c': int)
    requires IsGrid(b) && FirstRun(b, r, c) && FirstRun(b, r', c')
    ensures r == r' && c == c'
  {
  }

  /**
    The terminal value is 0, +10 or -10. It is 0 exactly when no cell starts a
    run; otherwise it is -10 when the first run-starting cell in row-major
    order holds `opp` and +10 when it does not.
  */
  lemma TerminalValueSpec(b: Board, opp: Cell)
    requires IsGrid(b)
    ensures TerminalValue(b, opp) in {LOSS, 0, WIN}
    ensures TerminalValue(b, opp) == 0 <==> NoRun(b)
    ensures forall r, c :: FirstRun(b, r, c) ==> TerminalValue(b, opp) == if b[r][c] == opp then LOSS else WIN
    ensures TerminalValue(b, opp) != 0 ==> exists r, c :: FirstRun(b, r, c)
  {
    ScanFromSpec(b, 0, 0);
    match ScanFrom(b, 0, 0)
    case None =>
      forall r, c | FirstRun(b, r, c)
        ensures false
      {
      }
    case Some(p) =>
      forall r, c | FirstRun(b, r, c)
        ensures r == p.row && c == p.col
      {
        FirstRunUnique(b, r, c, p.row, p.col);
      }
  }

  /**
    Swapping which colour is the opponent flips the sign of the value: whoever
    owns the first run, it is a win for one side and a loss for the other.
  */
  lemma TerminalValueSwap(b: Board)
    requires IsGrid(b)
    ensures TerminalValue(b, Red) == -TerminalValue(b, Yellow)
  {
    ScanFromSpec(b, 0, 0);
  }

  // Steps of the row-major scan, in the order the agent's loops take them.

  /** Passing a cell that starts no run. */
  lemma NoRunBeforeNext(b: Board, r: int, c: int)
    requires IsGrid(b) && InBounds(b, r, c) && NoRunBefore(b, r, c) && !StartsRun(b, r, c)
    ensures NoRunBefore(b, r, c + 1)
  {
    forall r', c' | InBounds(b, r', c') && Before(r', c', r, c + 1)
      ensures !StartsRun(b, r', c')
    {
      if r' != r || c' != c {
        assert Before(r', c', r, c);
      }
    }
  }

  /** Passing the end of a row. */
  lemma NoRunBeforeNextRow(b: Board, r: int)
    requires IsGrid(b) && NoRunBefore(b, r, Cols(b))
    ensures NoRunBefore(b, r + 1, 0)
  {
    forall r', c' | InBounds(b, r', c') && Before(r', c', r + 1, 0)
      ensures !StartsRun(b, r', c')
    {
      assert Before(r', c', r, Cols(b));
    }
  }

  /** The scan stops at the first run-starting cell. */
  lemma FirstRunValue(b: Board, opp: Cell, r: int, c: int)
    requires IsGrid(b) && FirstRun(b, r, c)
    ensures TerminalValue(b, opp) == if b[r][c] == opp then LOSS else WIN
  {
    TerminalValueSpec(b, opp);
  }

  /** The scan of the whole grid finds no run. */
  lemma NoRunValue(b: Board, opp: Cell)
    requires IsGrid(b) && NoRunBefore(b, |b|, 0)
    ensures TerminalValue(b, opp) == 0
  {
    assert NoRun(b) by {
      forall r, c | InBounds(b, r, c)
        ensures !StartsRun(b, r, c)
      {
        assert Before(r, c, |b|, 0);
      }
    }
    TerminalValueSpec(b, opp);
  }
}
