# Connect-Four minimax agent, modelled in Dafny

This project models `StudentRobot`, a Connect-Four agent. On each turn it works out its own colour and the opponent's from its role. It then scores every open column with a depth-bounded minimax search and plays the first column with the strictly best score.

Pieces fall under gravity. A column is open when its top cell (row 0) is blank. The search stops at a node in two cases:

- Some cell starts four equal pieces to the right, downward, towards the bottom right or towards the top right. The node is then worth -10 when that cell is the opponent's colour and +10 otherwise.
- The depth reaches `MAX_DEPTH = 8`. The node is then worth 0.

Modules:

- `Grid`: cells (`Blank`, `Red`, `Yellow`) and the grid as a value (`Board`, rows from the top). `Snap` reads a grid array as a `Board`.
- `Gravity`: dropping a piece into a column (the environment's `perceive`).
- `MoveGeneration`: the open columns, in ascending order.
- `WinDetection`: the four run directions, the row-major scan and the terminal value.
- `Minimax`: the max and min node values as left folds over the legal moves, and the root choice with its first-strict-improvement tie-break. It also holds the lemmas about them.
- `Agent`: the class `StudentRobot`. Its fields `player` and `opp` and its methods work on `array2<Cell>` grids. Each method is proved equal to the value-level definitions above.
- `DrawValue`: a worked position showing how the search as written treats a full grid with no winner (see Findings).

The search is parameterised by a context `Ctx`. It holds the two colours and the value of a node with no legal move:

- `AsWritten` uses the fold start values, `Integer.MIN_VALUE` at a max node and `Integer.MAX_VALUE` at a min node. This is the agent's behaviour, and it is what the `Agent` methods are proved against.
- `Corrected` values such a node, a full grid with no winner, at 0.

The methods `MaxVal`, `MinVal`, `Moves`, `Terminal` and the `Check*` methods have no `modifies` clause. That proves they never write the grid they are given. Each search node plays its moves on a fresh copy made by `ClonePosition`.

## Model

| member | source | states |
|---|---|---|
| Agent.StudentRobot.constructor | src/edu/ncsu/csc411/ps04/agent/StudentRobot.java:19-21 | the agent keeps the environment's grid size |
| Agent.StudentRobot.GetAction | src/edu/ncsu/csc411/ps04/agent/StudentRobot.java:37-63 | sets player and opp from the role (Yellow, or Red for any other role) and returns the root choice `BestMove` of the environment's grid |
| Agent.StudentRobot.MaxVal | src/edu/ncsu/csc411/ps04/agent/StudentRobot.java:68-80 | returns the max-node value `MaxValue` of the grid at that depth, and leaves the grid unwritten |
| Agent.StudentRobot.MinVal | src/edu/ncsu/csc411/ps04/agent/StudentRobot.java:85-97 | returns the min-node value `MinValue` of the grid at that depth, and leaves the grid unwritten |
| Agent.StudentRobot.Moves | src/edu/ncsu/csc411/ps04/agent/StudentRobot.java:103-111 | returns exactly the columns whose top cell is blank, strictly ascending |
| Agent.StudentRobot.Terminal | src/edu/ncsu/csc411/ps04/agent/StudentRobot.java:118-138 | returns the terminal value of the grid for the agent: the first run in row-major order decides |
| Agent.StudentRobot.CheckHorizontal | src/edu/ncsu/csc411/ps04/agent/StudentRobot.java:144-155 | true iff the cell holds a piece and the three cells to its right are in bounds and equal to it; every index is in bounds |
| Agent.StudentRobot.CheckVertical | src/edu/ncsu/csc411/ps04/agent/StudentRobot.java:161-172 | true iff the cell holds a piece and the three cells below it are in bounds and equal to it |
| Agent.StudentRobot.CheckDiagonalBottomRight | src/edu/ncsu/csc411/ps04/agent/StudentRobot.java:178-190 | true iff the cell holds a piece and the three cells towards the bottom right are in bounds and equal to it |
| Agent.StudentRobot.CheckDiagonalTopRight | src/edu/ncsu/csc411/ps04/agent/StudentRobot.java:196-208 | true iff the cell holds a piece and the three cells towards the top right are in bounds and equal to it |
| Agent.StudentRobot.ClonePosition | src/edu/ncsu/csc411/ps04/agent/StudentRobot.java:214-227 | returns a fresh array of the same size holding the same cells; being fresh, it shares no storage with the input |
| Agent.StudentRobot.Perceive | src/edu/ncsu/csc411/ps04/agent/StudentRobot.java:55 | ASSUMED contract of the undefined `perceive`: the grid becomes `Drop` of the old grid, with only the landing cell changed |
| Gravity.LowestBlank | src/edu/ncsu/csc411/ps04/agent/StudentRobot.java:55 | the landing row is blank and every cell below it in the column is filled |
| Gravity.DropChangesOneCell | src/edu/ncsu/csc411/ps04/agent/StudentRobot.java:55 | a drop changes exactly one cell, the lowest blank one of the column, to the piece |
| Gravity.DropKeepsSettled | src/edu/ncsu/csc411/ps04/agent/StudentRobot.java:55 | on a grid obeying gravity the piece lands on the floor or on a piece, the cells above it stay blank, and the grid still obeys gravity |
| MoveGeneration.LegalMoves | src/edu/ncsu/csc411/ps04/agent/StudentRobot.java:103-111 | c is a legal move iff column c is open, and the list is strictly ascending, so it has no duplicates |
| MoveGeneration.LegalUpToSpec | src/edu/ncsu/csc411/ps04/agent/StudentRobot.java:105-109 | after scanning columns 0 .. n-1 the list holds exactly the open ones among them, strictly ascending |
| MoveGeneration.SameSorted | src/edu/ncsu/csc411/ps04/agent/StudentRobot.java:103-111 | a strictly ascending list is fixed by its elements, so the move list is the only such list of the open columns |
| WinDetection.ScanFromSpec | src/edu/ncsu/csc411/ps04/agent/StudentRobot.java:121-137 | the row-major scan finds nothing iff no cell starts a run, and otherwise finds the first cell that does |
| WinDetection.FirstRunUnique | src/edu/ncsu/csc411/ps04/agent/StudentRobot.java:121-136 | there is at most one first run-starting cell |
| WinDetection.TerminalValueSpec | src/edu/ncsu/csc411/ps04/agent/StudentRobot.java:118-138 | the value is -10, 0 or 10; it is 0 iff there is no run; otherwise -10 iff the first run is the opponent's |
| WinDetection.TerminalValueSwap | src/edu/ncsu/csc411/ps04/agent/StudentRobot.java:129-133 | swapping which colour is the opponent negates the terminal value |
| Minimax.MaxOverSpec | src/edu/ncsu/csc411/ps04/agent/StudentRobot.java:74-79 | the max fold is at least its start value and every child, and equals one of them |
| Minimax.MinOverSpec | src/edu/ncsu/csc411/ps04/agent/StudentRobot.java:91-96 | the min fold is at most its start value and every child, and equals one of them |
| Minimax.ValueRange | src/edu/ncsu/csc411/ps04/agent/StudentRobot.java:68-97 | every node is worth -10, 0, 10 or the no-move value; a non-empty fold never returns its start value |
| Minimax.MaxValueSpec | src/edu/ncsu/csc411/ps04/agent/StudentRobot.java:68-80 | a max node is worth the terminal value at a cut-off; with no legal move, the no-move value; otherwise the largest child value over the open columns |
| Minimax.MinValueSpec | src/edu/ncsu/csc411/ps04/agent/StudentRobot.java:85-97 | a min node is worth the terminal value at a cut-off; with no legal move, the no-move value; otherwise the smallest child value over the open columns |
| Minimax.CorrectedIsZeroSum | src/edu/ncsu/csc411/ps04/agent/StudentRobot.java:68-97 | with a draw worth 0, a max node for one colour is worth the negation of the min node for the other colour on the same grid and depth |
| Minimax.ZeroSumFold | src/edu/ncsu/csc411/ps04/agent/StudentRobot.java:74-79 | with a draw worth 0, the max fold for one colour is the negation of the min fold for the other colour from the negated start |
| Minimax.PickStep | src/edu/ncsu/csc411/ps04/agent/StudentRobot.java:53-61 | one iteration of the root loop replaces the best so far only on a strictly greater score |
| Minimax.PickSpec | src/edu/ncsu/csc411/ps04/agent/StudentRobot.java:53-61 | the root loop keeps its start when no score beats it, and otherwise ends on the first maximum score |
| Minimax.BestMoveSpec | src/edu/ncsu/csc411/ps04/agent/StudentRobot.java:47-62 | picks 0 when no open column scores above Integer.MIN_VALUE (in particular with no open column); otherwise an open column scoring above it, strictly better than every open column to its left and no worse than any to its right |
| DrawValue.AsWrittenPrefersLoss | src/edu/ncsu/csc411/ps04/agent/StudentRobot.java:74-79 | on `Y Y Y . R .` with the agent Red, blocking scores Integer.MIN_VALUE and the losing column -10, so the agent plays the losing column 5 |
| DrawValue.AsWrittenNotZeroSum | src/edu/ncsu/csc411/ps04/agent/StudentRobot.java:91-96 | as written, on a full grid with no winner the max node is worth Integer.MIN_VALUE and the min node Integer.MAX_VALUE, not its negation |
| DrawValue.CorrectedBlocks | src/edu/ncsu/csc411/ps04/agent/StudentRobot.java:74-79 | with a draw worth 0, blocking scores 0 and the agent blocks at column 3 |

## Left out

- The environment calls are replaced:
  - `getRole()` becomes the `role` parameter of `GetAction`.
  - `env.clonePositions()` becomes `ClonePosition` applied to the grid passed in.
  - `env.getRows()` and `env.getCols()` become the agent's constant dimensions.
- `Position` objects become `Cell` values. The clone therefore copies colours rather than allocating one object per cell.
- `Perceive`: `perceive` is defined in a base class that is not part of this model. Its contract is ASSUMED, not taken from code:
  - it drops the piece into the lowest blank row of an open column, in place;
  - it changes no other cell.
- Calling `perceive` on a full or out-of-range column is also not modelled. Every call in the agent passes a legal move.
- The error reports that a reimplementation might add are not in the agent's code, so they are not modelled. Examples: a full column, a root with no legal move, an invalid column. The model follows the code: with no legal move, `getAction` returns column 0.
- The no-move value:
  - The agent's methods are proved against `AsWritten`, the code's sentinel values.
  - The value 0 that a design for this agent asks for exists only as `Corrected`, alongside.
- Depth is a `nat`, and values are unbounded integers. The Java `int` cannot overflow here: depth stays at most 8, and every value lies in {-10, 0, 10, Integer.MIN_VALUE, Integer.MAX_VALUE}, as `Minimax.ValueRange` shows.
- The class comment says the depth is 5. The code has `MAX_DEPTH = 8`, and the model uses 8.
- Running time and memory use of the search are not modelled.

## Findings

| source | as written | input that shows it | evidently intended | confidence | as-written member | corrected member |
|---|---|---|---|---|---|---|
| src/edu/ncsu/csc411/ps04/agent/StudentRobot.java:74-79 | a node with no legal move returns its fold start: Integer.MIN_VALUE at a max node, Integer.MAX_VALUE at a min node. A full grid with no winner (a draw) scores below any loss | one-row grid `Y Y Y . R .` with the agent Red: blocking at column 3 scores Integer.MIN_VALUE, column 5 scores -10, and the agent plays 5 and loses | a full grid with no winner is worth 0, so the agent blocks at column 3 | not executed | DrawValue.AsWrittenPrefersLoss | DrawValue.CorrectedBlocks |
