/**
  A node without legal moves (a full grid with no winner) is worth the start
  value of its fold: Integer.MIN_VALUE at a max node, Integer.MAX_VALUE at a
  min node. A draw reached by the opponent's last piece is therefore worse for
  the agent than any loss, and the agent can choose a move that lets the
  opponent win over a move that draws.

  The witness is a one-row grid of six columns, the agent Red:

      Y Y Y . R .

  Column 3 (blocking) leaves the opponent only column 5, which fills the grid
  with no winner; column 5 lets the opponent complete four at column 3.
*/
module DrawValue {
  import opened Grid
  import opened Gravity
  import opened MoveGeneration
  import opened WinDetection
  import opened Minimax

  const Y := Yellow
  const R := Red
  const B := Blank

  function Witness(): Board {
    [[Y, Y, Y, B, R, B]]
  }

  /** On a one-row grid a piece lands in the only row. */
  lemma OneRowDrop(b: Board, col: int, colour: Cell)
    requires IsGrid(b) && |b| == 1 && 0 <= col < Cols(b) && b[0][col] == Blank
    ensures Drop(b, col, colour) == [b[0][col := colour]]
  {
  }

  /** Four equal pieces side by side from column c of a single row. */
  predicate FourAt(row: seq<Cell>, c: int)
    requires 0 <= c && c + 3 < |row|
  {
    Colored(row[c]) && row[c + 1] == row[c] && row[c + 2] == row[c] && row[c + 3] == row[c]
  }

  /** On a one-row grid only a horizontal run is possible. */
  lemma OneRowNoRun(b: Board)
    requires |b| == 1
    requires forall c :: 0 <= c && c + 3 < |b[0]| ==> !FourAt(b[0], c)
    ensures IsGrid(b) && NoRun(b)
  {
    forall r, c | InBounds(b, r, c)
      ensures !StartsRun(b, r, c)
    {
      if c + 3 < |b[0]| {
        assert !FourAt(b[0], c);
      }
    }
  }

  /** Six cells of one row in which no four side by side are equal pieces. */
  lemma SixNoFour(row: seq<Cell>)
    requires |row| == 6
    requires !FourAt(row, 0) && !FourAt(row, 1) && !FourAt(row, 2)
    ensures forall c :: 0 <= c && c + 3 < |row| ==> !FourAt(row, c)
  {
    forall c | 0 <= c && c + 3 < |row|
      ensures !FourAt(row, c)
    {
      assert c == 0 || c == 1 || c == 2;
    }
  }

  /** The legal moves of a one-row grid of six cells. */
  lemma SixMoves(b: Board, ms: seq<int>)
    requires |b| == 1 && |b[0]| == 6
    requires forall c :: 0 <= c < 6 ==> (b[0][c] == Blank <==> c in ms)
    requires StrictlyIncreasing(ms) && forall i :: 0 <= i < |ms| ==> 0 <= ms[i] < 6
    ensures LegalMoves(b) == ms
  {
    var lm := LegalMoves(b);
    assert forall c :: c in lm <==> c in ms;
    SameSorted(lm, ms);
  }

  function AfterBlock(): Board { [[Y, Y, Y, R, R, B]] }
  function Full(): Board { [[Y, Y, Y, R, R, Y]] }
  function AfterOther(): Board { [[Y, Y, Y, B, R, R]] }
  function Lost(): Board { [[Y, Y, Y, Y, R, R]] }

  lemma WitnessMoves()
    ensures LegalMoves(Witness()) == [3, 5]
    ensures Drop(Witness(), 3, Red) == AfterBlock()
    ensures Drop(Witness(), 5, Red) == AfterOther()
  {
    SixMoves(Witness(), [3, 5]);
    OneRowDrop(Witness(), 3, Red);
    assert Witness()[0][3 := Red] == AfterBlock()[0];
    OneRowDrop(Witness(), 5, Red);
    assert Witness()[0][5 := Red] == AfterOther()[0];
  }

  lemma AfterBlockFacts()
    ensures TerminalValue(AfterBlock(), Yellow) == 0
    ensures LegalMoves(AfterBlock()) == [5]
    ensures Drop(AfterBlock(), 5, Yellow) == Full()
  {
    var b := AfterBlock();
    SixNoFour(b[0]);
    OneRowNoRun(b);
    TerminalValueSpec(b, Yellow);
    SixMoves(b, [5]);
    OneRowDrop(b, 5, Yellow);
    assert b[0][5 := Yellow] == Full()[0];
  }

  lemma FullFacts()
    ensures TerminalValue(Full(), Yellow) == 0 && TerminalValue(Full(), Red) == 0
    ensures LegalMoves(Full()) == []
  {
    var b := Full();
    SixNoFour(b[0]);
    OneRowNoRun(b);
    TerminalValueSpec(b, Yellow);
    TerminalValueSpec(b, Red);
    SixMoves(b, []);
  }

  lemma AfterOtherFacts()
    ensures TerminalValue(AfterOther(), Yellow) == 0
    ensures LegalMoves(AfterOther()) == [3]
    ensures Drop(AfterOther(), 3, Yellow) == Lost()
  {
    var b := AfterOther();
    SixNoFour(b[0]);
    OneRowNoRun(b);
    TerminalValueSpec(b, Yellow);
    SixMoves(b, [3]);
    OneRowDrop(b, 3, Yellow);
    assert b[0][3 := Yellow] == Lost()[0];
  }

  lemma LostFacts()
    ensures TerminalValue(Lost(), Yellow) == LOSS
  {
    var b := Lost();
    assert FirstRun(b, 0, 0) by {
      assert Horizontal(b, 0, 0);
    }
    FirstRunValue(b, Yellow, 0, 0);
  }

  /** Blocking: the opponent's only reply fills the grid, and nobody wins. */
  lemma BlockScore(ctx: Ctx)
    requires ctx.player == Red && ctx.opp == Yellow
    ensures Score(Witness(), 3, ctx) == Min(MAX_INT, ctx.noMoveMax)
  {
    WitnessMoves();
    AfterBlockFacts();
    FullFacts();
    assert MaxValue(Full(), 1, ctx) == ctx.noMoveMax;
    assert MinChild(AfterBlock(), 5, 1, ctx) == ctx.noMoveMax;
    assert MinOver(AfterBlock(), [5], 1, MAX_INT, ctx) == Min(MAX_INT, ctx.noMoveMax);
  }

  /** Not blocking: the opponent completes four at column 3. */
  lemma OtherScore(ctx: Ctx)
    requires ctx.player == Red && ctx.opp == Yellow
    ensures Score(Witness(), 5, ctx) == LOSS
  {
    WitnessMoves();
    AfterOtherFacts();
    LostFacts();
    assert MaxValue(Lost(), 1, ctx) == LOSS;
    assert MinChild(AfterOther(), 3, 1, ctx) == LOSS;
    assert MinOver(AfterOther(), [3], 1, MAX_INT, ctx) == LOSS;
  }

  /**
    As written: the blocking column scores Integer.MIN_VALUE, the losing
    column -10, and the agent plays the losing column 5.
  */
  lemma AsWrittenPrefersLoss()
    ensures Score(Witness(), 3, AsWritten(Red, Yellow)) == MIN_INT
    ensures Score(Witness(), 5, AsWritten(Red, Yellow)) == LOSS
    ensures BestMove(Witness(), AsWritten(Red, Yellow)) == 5
  {
    var ctx := AsWritten(Red, Yellow);
    WitnessMoves();
    BlockScore(ctx);
    OtherScore(ctx);
    assert Scores(Witness(), [3, 5], ctx) == [MIN_INT, LOSS];
  }

  /**
    Corrected: with a full grid without a winner worth 0, the blocking column
    scores 0, the losing column -10, and the agent blocks at column 3.
  */
  lemma CorrectedBlocks()
    ensures Score(Witness(), 3, Corrected(Red, Yellow)) == 0
    ensures Score(Witness(), 5, Corrected(Red, Yellow)) == LOSS
    ensures BestMove(Witness(), Corrected(Red, Yellow)) == 3
  {
    var ctx := Corrected(Red, Yellow);
    WitnessMoves();
    BlockScore(ctx);
    OtherScore(ctx);
    assert Scores(Witness(), [3, 5], ctx) == [0, LOSS];
  }

  /**
    As written the search is not zero-sum: on the full grid without a winner a
    max node for Red is worth Integer.MIN_VALUE, a min node for Yellow
    Integer.MAX_VALUE, and the one is not the negation of the other (compare
    Minimax.CorrectedIsZeroSum).
  */
  lemma AsWrittenNotZeroSum()
    ensures MaxValue(Full(), 0, AsWritten(Red, Yellow)) == MIN_INT
    ensures MinValue(Full(), 0, AsWritten(Yellow, Red)) == MAX_INT
    ensures MaxValue(Full(), 0, AsWritten(Red, Yellow)) != -MinValue(Full(), 0, AsWritten(Yellow, Red))
  {
    FullFacts();
  }
}
