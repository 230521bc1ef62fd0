/**
  The Connect-Four agent: its colour fields, the grid arrays it copies and
  probes, and the depth-bounded minimax it runs to choose a column.

  Every method is proved against the value-level definitions of the other
  modules: the grid array as a Board (Snap), the legal moves, the terminal
  value, the minimax values and the root choice.
*/
module Agent {
  import opened Grid
  import opened Gravity
  import opened MoveGeneration
  import opened WinDetection
  import opened Minimax

  /** A grid dimension reported by the environment. */
  type Dim = n: int | n > 0 witness 1

  class StudentRobot {
    /** The environment's grid size, fixed for the whole game. */
    const rows: Dim
    const cols: Dim

    /** The agent's colour and the opponent's, set at the start of each decision. */
    var player: Cell
    var opp: Cell

    constructor (rows: Dim, cols: Dim)
      ensures this.rows == rows && this.cols == cols
    {
      this.rows := rows;
      this.cols := cols;
      player := Blank;
      opp := Blank;
    }

    /** A grid array of the environment's size. */
    predicate Shaped(g: array2<Cell>) {
      g.Length0 == rows && g.Length1 == cols
    }

    /**
      Choose a column: fix the two colours from the role, then score every
      legal move of the environment's grid by a min node searched from depth
      0 on a fresh copy with the move played, keeping the first strictly
      best.
    */
    method GetAction(role: Cell, env: array2<Cell>) returns (move: int)
      requires Shaped(env)
      modifies this
      ensures player == (if role == Yellow then Yellow else Red)
      ensures opp == (if role == Yellow then Red else Yellow)
      ensures move == BestMove(Snap(env), AsWritten(player, opp))
    {
      if role == Yellow {
        player := Yellow;
        opp := Red;
      } else {
        player := Red;
        opp := Yellow;
      }
      move := 0;
      var val := MIN_INT;
      var curr: int;
      ghost var b := Snap(env);
      ghost var ctx := AsWritten(player, opp);
      var positions := ClonePosition(env);
      var ms := Moves(positions);
      ghost var scores := Scores(b, ms, ctx);
      for i := 0 to |ms|
        invariant player == ctx.player && opp == ctx.opp
        invariant Pick(ms[i..], scores[i..], move, val) == BestMove(b, ctx)
      {
        assert ms[i] in ms;
        positions := ClonePosition(env);
        Perceive(ms[i], positions, player);
        curr := MinVal(positions, 0);
        assert curr == scores[i];
        PickStep(ms, scores, i, move, val);
        if curr > val {
          val := curr;
          move := ms[i];
        }
      }
    }

    /** The value of a max node: the agent to move on positions, reached at depth. */
    method MaxVal(positions: array2<Cell>, depth: nat) returns (value: int)
      requires Shaped(positions)
      ensures value == MaxValue(Snap(positions), depth, AsWritten(player, opp))
      decreases MAX_DEPTH - depth
    {
      ghost var b := Snap(positions);
      ghost var ctx := AsWritten(player, opp);
      var d := depth + 1;
      var val := Terminal(positions);
      if val != 0 || d >= MAX_DEPTH {
        return val;
      }
      var max := MIN_INT;
      var ms := Moves(positions);
      for i := 0 to |ms|
        invariant MaxOver(b, ms[i..], d, max, ctx) == MaxOver(b, ms, d, MIN_INT, ctx)
      {
        assert ms[i] in ms;
        var newPos := ClonePosition(positions);
        Perceive(ms[i], newPos, player);
        var score := MinVal(newPos, d);
        assert ms[i..][1..] == ms[i + 1..];
        max := Max(max, score);
      }
      return max;
    }

    /** The value of a min node: the opponent to move on positions, reached at depth. */
    method MinVal(positions: array2<Cell>, depth: nat) returns (value: int)
      requires Shaped(positions)
      ensures value == MinValue(Snap(positions), depth, AsWritten(player, opp))
      decreases MAX_DEPTH - depth
    {
      ghost var b := Snap(positions);
      ghost var ctx := AsWritten(player, opp);
      var d := depth + 1;
      var val := Terminal(positions);
      if val != 0 || d >= MAX_DEPTH {
        return val;
      }
      var min := MAX_INT;
      var ms := Moves(positions);
      for i := 0 to |ms|
        invariant MinOver(b, ms[i..], d, min, ctx) == MinOver(b, ms, d, MAX_INT, ctx)
      {
        assert ms[i] in ms;
        var newPos := ClonePosition(positions);
        Perceive(ms[i], newPos, opp);
        var score := MaxVal(newPos, d);
        assert ms[i..][1..] == ms[i + 1..];
        min := Min(min, score);
      }
      return min;
    }

    /** The columns whose top cell is blank, in ascending order. */
    method Moves(positions: array2<Cell>) returns (actions: seq<int>)
      requires Shaped(positions)
      ensures actions == LegalMoves(Snap(positions))
      ensures forall c :: c in actions <==> 0 <= c < cols && positions[0, c] == Blank
      ensures StrictlyIncreasing(actions)
    {
      ghost var b := Snap(positions);
      actions := [];
      for col := 0 to cols
        invariant actions == LegalUpTo(b, col)
      {
        if positions[0, col] == Blank {
          actions := actions + [col];
        }
      }
    }

    /**
      +10 or -10 for the colour of the first cell, in row-major order, that
      starts a run of four (-10 when it is the opponent's), 0 when none does.
    */
    method Terminal(positions: array2<Cell>) returns (value: int)
      requires Shaped(positions)
      ensures value == TerminalValue(Snap(positions), opp)
    {
      ghost var b := Snap(positions);
      for row := 0 to rows
        invariant NoRunBefore(b, row, 0)
      {
        for col := 0 to cols
          invariant NoRunBefore(b, row, col)
        {
          var status := positions[row, col];
          var horizontal := CheckHorizontal(row, col, positions);
          var vertical := CheckVertical(row, col, positions);
          var diagonalBR := CheckDiagonalBottomRight(row, col, positions);
          var diagonalTR := CheckDiagonalTopRight(row, col, positions);
          if horizontal || vertical || diagonalBR || diagonalTR {
            FirstRunValue(b, opp, row, col);
            if status == opp {
              return LOSS;
            } else {
              return WIN;
            }
          }
          NoRunBeforeNext(b, row, col);
        }
        NoRunBeforeNextRow(b, row);
      }
      NoRunValue(b, opp);
      return 0;
    }

    /** Four cells of the colour of (row, col) from there to the right. */
    method CheckHorizontal(row: int, col: int, positions: array2<Cell>) returns (found: bool)
      requires Shaped(positions) && 0 <= row < rows && 0 <= col < cols
      ensures found == Horizontal(Snap(positions), row, col)
    {
      ghost var b := Snap(positions);
      var status := positions[row, col];
      if status != Yellow && status != Red {
        return false;
      }
      if col + 4 > cols {
        return false;
      }
      for i := 0 to 4
        invariant forall j :: 0 <= j < i ==> Matches(b, row, col, 0, 1, j)
      {
        if status != positions[row, col + i] {
          return false;
        }
      }
      return true;
    }

    /** Four cells of the colour of (row, col) from there downward. */
    method CheckVertical(row: int, col: int, positions: array2<Cell>) returns (found: bool)
      requires Shaped(positions) && 0 <= row < rows && 0 <= col < cols
      ensures found == Vertical(Snap(positions), row, col)
    {
      ghost var b := Snap(positions);
      var status := positions[row, col];
      if status != Yellow && status != Red {
        return false;
      }
      if row + 4 > rows {
        return false;
      }
      for i := 0 to 4
        invariant forall j :: 0 <= j < i ==> Matches(b, row, col, 1, 0, j)
      {
        if status != positions[row + i, col] {
          return false;
        }
      }
      return true;
    }

    /** Four cells of the colour of (row, col) from there to the bottom right. */
    method CheckDiagonalBottomRight(row: int, col: int, positions: array2<Cell>) returns (found: bool)
      requires Shaped(positions) && 0 <= row < rows && 0 <= col < cols
      ensures found == DiagonalBottomRight(Snap(positions), row, col)
    {
      ghost var b := Snap(positions);
      var status := positions[row, col];
      if status != Yellow && status != Red {
        return false;
      }
      if row + 4 > rows {
        return false;
      }
      if col + 4 > cols {
        return false;
      }
      for i := 0 to 4
        invariant forall j :: 0 <= j < i ==> Matches(b, row, col, 1, 1, j)
      {
        if status != positions[row + i, col + i] {
          return false;
        }
      }
      return true;
    }

    /** Four cells of the colour of (row, col) from there to the top right. */
    method CheckDiagonalTopRight(row: int, col: int, positions: array2<Cell>) returns (found: bool)
      requires Shaped(positions) && 0 <= row < rows && 0 <= col < cols
      ensures found == DiagonalTopRight(Snap(positions), row, col)
    {
      ghost var b := Snap(positions);
      var status := positions[row, col];
      if status != Yellow && status != Red {
        return false;
      }
      if row - 3 < 0 {
        return false;
      }
      if col + 4 > cols {
        return false;
      }
      for i := 0 to 4
        invariant forall j :: 0 <= j < i ==> Matches(b, row, col, -1, 1, j)
      {
        if status != positions[row - i, col + i] {
          return false;
        }
      }
      return true;
    }

    /** A newly allocated grid of the environment's size holding the same cells. */
    method ClonePosition(positions: array2<Cell>) returns (clone: array2<Cell>)
      requires Shaped(positions)
      ensures fresh(clone) && Shaped(clone)
      ensures Snap(clone) == Snap(positions)
    {
      clone := new Cell[rows, cols];
      for row := 0 to rows
        invariant forall r, c :: 0 <= r < row && 0 <= c < cols ==> clone[r, c] == positions[r, c]
      {
        for col := 0 to cols
          invariant forall r, c :: 0 <= r < row && 0 <= c < cols ==> clone[r, c] == positions[r, c]
          invariant forall c :: 0 <= c < col ==> clone[row, c] == positions[row, c]
        {
          match positions[row, col]
          case Blank => clone[row, col] := Blank;
          case Red => clone[row, col] := Red;
          case Yellow => clone[row, col] := Yellow;
        }
      }
      SnapIs(clone, Snap(positions));
    }

    /**
      The environment's drop, ASSUMED: the piece falls into the lowest blank
      row of open column m of the array it is given, and nothing else changes.
    */
    method Perceive(m: int, positions: array2<Cell>, colour: Cell)
      requires Shaped(positions) && 0 <= m < cols && positions[0, m] == Blank
      modifies positions
      ensures Snap(positions) == Drop(old(Snap(positions)), m, colour)
    {
      ghost var b := Snap(positions);
      var row := rows - 1;
      while positions[row, m] != Blank
        invariant 0 <= row < rows
        invariant forall k :: row < k < rows ==> positions[k, m] != Blank
        decreases row
      {
        row := row - 1;
      }
      assert row == LandingRow(b, m);
      positions[row, m] := colour;
      SnapIs(positions, Drop(b, m, colour));
    }
  }
}
