/**
  Depth-bounded minimax over the Connect-Four grid, as the agent computes it.

  A max node is the agent's turn, a min node the opponent's. Each node first
  increments the depth it was given; a node whose terminal value is non-zero,
  or whose incremented depth has reached MAX_DEPTH, is worth its terminal
  value. Otherwise it folds over the legal moves in ascending order, dropping
  the mover's piece into each and asking the other kind of node at the
  incremented depth. The max fold starts at the smallest 32-bit integer and
  the min fold at the largest, so a node without legal moves is worth that
  starting value.

  The context carries the two colours and the value of a node that has no
  legal moves. `AsWritten` gives the agent's own values (the fold's starting
  values); `Corrected` scores such a node, a full grid without a winner, as a
  draw (0).
*/
module Minimax {
  import opened Grid
  import opened Gravity
  import opened MoveGeneration
  import opened WinDetection

  /** Plies searched below the root move. */
  const MAX_DEPTH := 8
  /** Integer.MIN_VALUE and Integer.MAX_VALUE. */
  const MIN_INT := -0x8000_0000
  const MAX_INT := 0x7fff_ffff

  datatype Ctx = Ctx(player: Cell, opp: Cell, noMoveMax: int, noMoveMin: int)

  /** The search as the agent runs it: a node without moves keeps its fold's start value. */
  function AsWritten(player: Cell, opp: Cell): Ctx {
    Ctx(player, opp, MIN_INT, MAX_INT)
  }

  /** The search with a node without moves (a drawn, full grid) worth 0. */
  function Corrected(player: Cell, opp: Cell): Ctx {
    Ctx(player, opp, 0, 0)
  }

  /** Math.max and Math.min on Java ints. */
  function Max(x: int, y: int): int { if x >= y then x else y }
  function Min(x: int, y: int): int { if x <= y then x else y }

  predicate AllOpen(b: Board, ms: seq<int>)
    requires IsGrid(b)
  {
    forall m :: m in ms ==> Open(b, m)
  }

  /** Value of a max node (the agent to move) reached at the given depth. */
  function MaxValue(b: Board, depth: nat, ctx: Ctx): int
    requires IsGrid(b)
    decreases MAX_DEPTH - depth, 0, 0
  {
    var d := depth + 1;
    var v := TerminalValue(b, ctx.opp);
    if v != 0 || d >= MAX_DEPTH then v
    else
      var ms := LegalMoves(b);
      if ms == [] then ctx.noMoveMax else MaxOver(b, ms, d, MIN_INT, ctx)
  }

  /** Value of a min node (the opponent to move) reached at the given depth. */
  function MinValue(b: Board, depth: nat, ctx: Ctx): int
    requires IsGrid(b)
    decreases MAX_DEPTH - depth, 0, 0
  {
    var d := depth + 1;
    var v := TerminalValue(b, ctx.opp);
    if v != 0 || d >= MAX_DEPTH then v
    else
      var ms := LegalMoves(b);
      if ms == [] then ctx.noMoveMin else MinOver(b, ms, d, MAX_INT, ctx)
  }

  /** The agent plays column m: the opponent's reply is searched at depth d. */
  function MaxChild(b: Board, m: int, d: nat, ctx: Ctx): int
    requires IsGrid(b) && Open(b, m)
    decreases MAX_DEPTH - d, 0, 1
  {
    MinValue(Drop(b, m, ctx.player), d, ctx)
  }

  /** The opponent plays column m: the agent's reply is searched at depth d. */
  function MinChild(b: Board, m: int, d: nat, ctx: Ctx): int
    requires IsGrid(b) && Open(b, m)
    decreases MAX_DEPTH - d, 0, 1
  {
    MaxValue(Drop(b, m, ctx.opp), d, ctx)
  }

  /** The running maximum `acc` folded left over the children of moves ms. */
  function MaxOver(b: Board, ms: seq<int>, d: nat, acc: int, ctx: Ctx): int
    requires IsGrid(b) && AllOpen(b, ms)
    decreases MAX_DEPTH - d, |ms|, 1
  {
    if ms == [] then acc
    else MaxOver(b, ms[1..], d, Max(acc, MaxChild(b, ms[0], d, ctx)), ctx)
  }

  /** The running minimum `acc` folded left over the children of moves ms. */
  function MinOver(b: Board, ms: seq<int>, d: nat, acc: int, ctx: Ctx): int
    requires IsGrid(b) && AllOpen(b, ms)
    decreases MAX_DEPTH - d, |ms|, 1
  {
    if ms == [] then acc
    else MinOver(b, ms[1..], d, Min(acc, MinChild(b, ms[0], d, ctx)), ctx)
  }

  // ---------------------------------------------------------------------------
  // The fold: a max node is the largest of its children, a min node the smallest

  /** The max fold is at least its start and every child, and is one of them. */
  lemma {:induction false} MaxOverSpec(b: Board, ms: seq<int>, d: nat, acc: int, ctx: Ctx)
    requires IsGrid(b) && AllOpen(b, ms)
    ensures MaxOver(b, ms, d, acc, ctx) >= acc
    ensures forall m :: m in ms ==> MaxOver(b, ms, d, acc, ctx) >= MaxChild(b, m, d, ctx)
    ensures MaxOver(b, ms, d, acc, ctx) == acc || exists m :: m in ms && MaxOver(b, ms, d, acc, ctx) == MaxChild(b, m, d, ctx)
  {
    if ms != [] {
      var x := MaxChild(b, ms[0], d, ctx);
      MaxOverSpec(b, ms[1..], d, Max(acc, x), ctx);
      forall m | m in ms
        ensures MaxOver(b, ms, d, acc, ctx) >= MaxChild(b, m, d, ctx)
      {
        if m != ms[0] {
          assert m in ms[1..];
        }
      }
      var r := MaxOver(b, ms, d, acc, ctx);
      if r != acc && r != x {
        var m :| m in ms[1..] && r == MaxChild(b, m, d, ctx);
        assert m in ms;
      }
    }
  }

  /** The min fold is at most its start and every child, and is one of them. */
  lemma {:induction false} MinOverSpec(b: Board, ms: seq<int>, d: nat, acc: int, ctx: Ctx)
    requires IsGrid(b) && AllOpen(b, ms)
    ensures MinOver(b, ms, d, acc, ctx) <= acc
    ensures forall m :: m in ms ==> MinOver(b, ms, d, acc, ctx) <= MinChild(b, m, d, ctx)
    ensures MinOver(b, ms, d, acc, ctx) == acc || exists m :: m in ms && MinOver(b, ms, d, acc, ctx) == MinChild(b, m, d, ctx)
  {
    if ms != [] {
      var x := MinChild(b, ms[0], d, ctx);
      MinOverSpec(b, ms[1..], d, Min(acc, x), ctx);
      forall m | m in ms
        ensures MinOver(b, ms, d, acc, ctx) <= MinChild(b, m, d, ctx)
      {
        if m != ms[0] {
          assert m in ms[1..];
        }
      }
      var r := MinOver(b, ms, d, acc, ctx);
      if r != acc && r != x {
        var m :| m in ms[1..] && r == MinChild(b, m, d, ctx);
        assert m in ms;
      }
    }
  }

  // ---------------------------------------------------------------------------
  // Which values a node can take

  predicate Int32(x: int) {
    MIN_INT <= x <= MAX_INT
  }

  /** A terminal value, or the value of a node without legal moves. */
  function Outcomes(ctx: Ctx): set<int> {
    {LOSS, 0, WIN, ctx.noMoveMax, ctx.noMoveMin}
  }

  /**
    Every node is worth -10, 0, +10 or the value of a node without moves: the
    fold's start values never survive a non-empty fold.
  */
  lemma {:induction false} ValueRange(b: Board, depth: nat, ctx: Ctx)
    requires IsGrid(b) && Int32(ctx.noMoveMax) && Int32(ctx.noMoveMin)
    ensures MaxValue(b, depth, ctx) in Outcomes(ctx)
    ensures MinValue(b, depth, ctx) in Outcomes(ctx)
    decreases MAX_DEPTH - depth, 0, 0
  {
    TerminalValueSpec(b, ctx.opp);
    var d := depth + 1;
    if TerminalValue(b, ctx.opp) == 0 && d < MAX_DEPTH {
      var ms := LegalMoves(b);
      if ms != [] {
        MaxOverRange(b, ms, d, MIN_INT, ctx);
        MinOverRange(b, ms, d, MAX_INT, ctx);
      }
    }
  }

  lemma {:induction false} MaxOverRange(b: Board, ms: seq<int>, d: nat, acc: int, ctx: Ctx)
    requires IsGrid(b) && AllOpen(b, ms) && ms != []
    requires Int32(ctx.noMoveMax) && Int32(ctx.noMoveMin)
    requires acc == MIN_INT || acc in Outcomes(ctx)
    ensures MaxOver(b, ms, d, acc, ctx) in Outcomes(ctx)
    decreases MAX_DEPTH - d, |ms|, 1
  {
    assert ms[0] in ms;
    ValueRange(Drop(b, ms[0], ctx.player), d, ctx);
    var acc' := Max(acc, MaxChild(b, ms[0], d, ctx));
    if |ms| > 1 {
      MaxOverRange(b, ms[1..], d, acc', ctx);
    }
  }

  lemma {:induction false} MinOverRange(b: Board, ms: seq<int>, d: nat, acc: int, ctx: Ctx)
    requires IsGrid(b) && AllOpen(b, ms) && ms != []
    requires Int32(ctx.noMoveMax) && Int32(ctx.noMoveMin)
    requires acc == MAX_INT || acc in Outcomes(ctx)
    ensures MinOver(b, ms, d, acc, ctx) in Outcomes(ctx)
    decreases MAX_DEPTH - d, |ms|, 1
  {
    assert ms[0] in ms;
    ValueRange(Drop(b, ms[0], ctx.opp), d, ctx);
    var acc' := Min(acc, MinChild(b, ms[0], d, ctx));
    if |ms| > 1 {
      MinOverRange(b, ms[1..], d, acc', ctx);
    }
  }

  /**
    What a max node is worth. At a cut-off (a winner, or the depth limit) it
    is the terminal value. Otherwise, with no legal move, it is the no-move
    value; with legal moves it is the largest value of the children, one per
    legal move, each a min node at the incremented depth.
  */
  lemma MaxValueSpec(b: Board, depth: nat, ctx: Ctx)
    requires IsGrid(b) && Int32(ctx.noMoveMax) && Int32(ctx.noMoveMin)
    ensures var v, d := TerminalValue(b, ctx.opp), depth + 1;
      && (v != 0 || d >= MAX_DEPTH ==> MaxValue(b, depth, ctx) == v)
      && (v == 0 && d < MAX_DEPTH && LegalMoves(b) == [] ==> MaxValue(b, depth, ctx) == ctx.noMoveMax)
      && (v == 0 && d < MAX_DEPTH && LegalMoves(b) != [] ==>
            && (forall m :: Open(b, m) ==> MaxValue(b, depth, ctx) >= MaxChild(b, m, d, ctx))
            && (exists m :: Open(b, m) && MaxValue(b, depth, ctx) == MaxChild(b, m, d, ctx)))
  {
    var v, d, ms := TerminalValue(b, ctx.opp), depth + 1, LegalMoves(b);
    if v == 0 && d < MAX_DEPTH && ms != [] {
      MaxOverSpec(b, ms, d, MIN_INT, ctx);
      if MaxValue(b, depth, ctx) == MIN_INT {
        assert ms[0] in ms;
        ValueRange(Drop(b, ms[0], ctx.player), d, ctx);
        assert MaxChild(b, ms[0], d, ctx) <= MIN_INT;
      }
    }
  }

  /**
    What a min node is worth: the terminal value at a cut-off, the no-move
    value without legal moves, and otherwise the smallest value of its
    children, each a max node at the incremented depth.
  */
  lemma MinValueSpec(b: Board, depth: nat, ctx: Ctx)
    requires IsGrid(b) && Int32(ctx.noMoveMax) && Int32(ctx.noMoveMin)
    ensures var v, d := TerminalValue(b, ctx.opp), depth + 1;
      && (v != 0 || d >= MAX_DEPTH ==> MinValue(b, depth, ctx) == v)
      && (v == 0 && d < MAX_DEPTH && LegalMoves(b) == [] ==> MinValue(b, depth, ctx) == ctx.noMoveMin)
      && (v == 0 && d < MAX_DEPTH && LegalMoves(b) != [] ==>
            && (forall m :: Open(b, m) ==> MinValue(b, depth, ctx) <= MinChild(b, m, d, ctx))
            && (exists m :: Open(b, m) && MinValue(b, depth, ctx) == MinChild(b, m, d, ctx)))
  {
    var v, d, ms := TerminalValue(b, ctx.opp), depth + 1, LegalMoves(b);
    if v == 0 && d < MAX_DEPTH && ms != [] {
      MinOverSpec(b, ms, d, MAX_INT, ctx);
      if MinValue(b, depth, ctx) == MAX_INT {
        assert ms[0] in ms;
        ValueRange(Drop(b, ms[0], ctx.opp), d, ctx);
        assert MinChild(b, ms[0], d, ctx) >= MAX_INT;
      }
    }
  }

  // ---------------------------------------------------------------------------
  // Zero-sum symmetry of the corrected search

  /**
    With a full grid without a winner worth 0, the search is zero-sum: a max
    node for one colour is worth the negation of a min node, on the same grid
    and at the same depth, for the other colour, and the other way round.
  */
  lemma {:induction false} CorrectedIsZeroSum(b: Board, depth: nat, p: Cell, o: Cell)
    requires IsGrid(b) && Colored(p) && Colored(o) && p != o
    ensures MaxValue(b, depth, Corrected(p, o)) == -MinValue(b, depth, Corrected(o, p))
    ensures MinValue(b, depth, Corrected(p, o)) == -MaxValue(b, depth, Corrected(o, p))
    decreases MAX_DEPTH - depth, 0, 0
  {
    TerminalValueSwap(b);
    var d, ms := depth + 1, LegalMoves(b);
    if TerminalValue(b, o) == 0 && d < MAX_DEPTH && ms != [] {
      assert ms[0] in ms;
      var po, op := Corrected(p, o), Corrected(o, p);
      var byP, byO := Drop(b, ms[0], p), Drop(b, ms[0], o);
      CorrectedIsZeroSum(byP, d, p, o);
      CorrectedIsZeroSum(byO, d, p, o);
      ValueRange(byP, d, po);
      ValueRange(byO, d, op);
      var x, y := MaxChild(b, ms[0], d, po), MaxChild(b, ms[0], d, op);
      assert MinChild(b, ms[0], d, op) == -x && MinChild(b, ms[0], d, po) == -y;
      assert MaxValue(b, depth, po) == MaxOver(b, ms[1..], d, x, po);
      assert MinValue(b, depth, op) == MinOver(b, ms[1..], d, -x, op);
      assert MaxValue(b, depth, op) == MaxOver(b, ms[1..], d, y, op);
      assert MinValue(b, depth, po) == MinOver(b, ms[1..], d, -y, po);
      ZeroSumFold(b, ms[1..], d, x, p, o);
      ZeroSumFold(b, ms[1..], d, y, o, p);
    }
  }

  lemma {:induction false} ZeroSumFold(b: Board, ms: seq<int>, d: nat, acc: int, p: Cell, o: Cell)
    requires IsGrid(b) && AllOpen(b, ms) && Colored(p) && Colored(o) && p != o
    ensures MaxOver(b, ms, d, acc, Corrected(p, o)) == -MinOver(b, ms, d, -acc, Corrected(o, p))
    decreases MAX_DEPTH - d, |ms|, 1
  {
    if ms != [] {
      assert ms[0] in ms;
      CorrectedIsZeroSum(Drop(b, ms[0], p), d, p, o);
      var x := MaxChild(b, ms[0], d, Corrected(p, o));
      ZeroSumFold(b, ms[1..], d, Max(acc, x), p, o);
    }
  }

  // ---------------------------------------------------------------------------
  // The root: first strictly best column

  /** The score of root move m: the opponent's reply searched from depth 0. */
  function Score(b: Board, m: int, ctx: Ctx): int
    requires IsGrid(b) && Open(b, m)
  {
    MinValue(Drop(b, m, ctx.player), 0, ctx)
  }

  function Scores(b: Board, ms: seq<int>, ctx: Ctx): (s: seq<int>)
    requires IsGrid(b) && AllOpen(b, ms)
    ensures |s| == |ms|
  {
    seq(|ms|, i requires 0 <= i < |ms| => Score(b, ms[i], ctx))
  }

  /**
    The root loop over moves ms with their scores: a score replaces the best
    so far (move, val) only when it is strictly greater.
  */
  function Pick(ms: seq<int>, scores: seq<int>, move: int, val: int): int
    requires |ms| == |scores|
  {
    if ms == [] then move
    else if scores[0] > val then Pick(ms[1..], scores[1..], ms[0], scores[0])
    else Pick(ms[1..], scores[1..], move, val)
  }

  /** The column the agent plays: 0 until some legal move scores above Integer.MIN_VALUE. */
  function BestMove(b: Board, ctx: Ctx): int
    requires IsGrid(b)
  {
    var ms := LegalMoves(b);
    Pick(ms, Scores(b, ms, ctx), 0, MIN_INT)
  }

  /** One step of the root loop, at index i. */
  lemma PickStep(ms: seq<int>, scores: seq<int>, i: int, move: int, val: int)
    requires |ms| == |scores| && 0 <= i < |ms|
    ensures Pick(ms[i..], scores[i..], move, val) ==
      if scores[i] > val then Pick(ms[i + 1..], scores[i + 1..], ms[i], scores[i])
      else Pick(ms[i + 1..], scores[i + 1..], move, val)
  {
    assert ms[i..][1..] == ms[i + 1..] && scores[i..][1..] == scores[i + 1..];
  }

  /** Index k holds the first maximum of s. */
  ghost predicate FirstMaximum(s: seq<int>, k: int) {
    && 0 <= k < |s|
    && (forall j :: 0 <= j < k ==> s[j] < s[k])
    && (forall j :: k < j < |s| ==> s[j] <= s[k])
  }

  /**
    The fold keeps (move, val) when no score beats val, and otherwise ends on
    the move whose score is the first maximum.
  */
  lemma {:induction false} PickSpec(ms: seq<int>, scores: seq<int>, move: int, val: int)
    requires |ms| == |scores|
    ensures (forall i :: 0 <= i < |scores| ==> scores[i] <= val) ==> Pick(ms, scores, move, val) == move
    ensures (exists i :: 0 <= i < |scores| && scores[i] > val) ==>
      exists k :: FirstMaximum(scores, k) && scores[k] > val && Pick(ms, scores, move, val) == ms[k]
  {
    if ms != [] {
      var s := scores[0];
      if s > val {
        PickSpec(ms[1..], scores[1..], ms[0], s);
        if exists i :: 0 <= i < |scores| - 1 && scores[1..][i] > s {
          var k :| FirstMaximum(scores[1..], k) && scores[1..][k] > s && Pick(ms[1..], scores[1..], ms[0], s) == ms[1..][k];
          assert FirstMaximum(scores, k + 1);
        } else {
          assert FirstMaximum(scores, 0);
        }
      } else {
        PickSpec(ms[1..], scores[1..], move, val);
        if exists i :: 0 <= i < |scores| && scores[i] > val {
          var i :| 0 <= i < |scores| && scores[i] > val;
          assert scores[1..][i - 1] > val;
          var k :| FirstMaximum(scores[1..], k) && scores[1..][k] > val && Pick(ms[1..], scores[1..], move, val) == ms[1..][k];
          assert FirstMaximum(scores, k + 1);
        } else {
          assert forall i :: 0 <= i < |scores| - 1 ==> scores[1..][i] == scores[i + 1];
        }
      }
    }
  }

  /**
    The agent's column. When no legal move scores above Integer.MIN_VALUE
    (in particular when there is no legal move) it is 0. Otherwise it is a
    legal column that scores above Integer.MIN_VALUE, strictly better than
    every legal column to its left and at least as good as every one to its
    right: the lowest-numbered column with the best score.
  */
  lemma BestMoveSpec(b: Board, ctx: Ctx)
    requires IsGrid(b)
    ensures (forall m :: Open(b, m) ==> Score(b, m, ctx) <= MIN_INT) ==> BestMove(b, ctx) == 0
    ensures (exists m :: Open(b, m) && Score(b, m, ctx) > MIN_INT) ==>
      var best := BestMove(b, ctx);
      && Open(b, best)
      && Score(b, best, ctx) > MIN_INT
      && (forall m :: Open(b, m) && m < best ==> Score(b, m, ctx) < Score(b, best, ctx))
      && (forall m :: Open(b, m) && m > best ==> Score(b, m, ctx) <= Score(b, best, ctx))
  {
    var ms := LegalMoves(b);
    var scores := Scores(b, ms, ctx);
    PickSpec(ms, scores, 0, MIN_INT);
    assert forall j :: 0 <= j < |ms| ==> ms[j] in ms && scores[j] == Score(b, ms[j], ctx);
    if exists m :: Open(b, m) && Score(b, m, ctx) > MIN_INT {
      var m0 :| Open(b, m0) && Score(b, m0, ctx) > MIN_INT;
      var i0 :| 0 <= i0 < |ms| && ms[i0] == m0;
      var k :| FirstMaximum(scores, k) && scores[k] > MIN_INT && BestMove(b, ctx) == ms[k];
      FirstMaximumColumns(ms, scores, k);
      forall m | Open(b, m)
        ensures exists j :: 0 <= j < |ms| && ms[j] == m
      {
        assert m in ms;
      }
    }
  }

  /** With strictly increasing columns, the first maximum by index is the first by column. */
  lemma FirstMaximumColumns(ms: seq<int>, scores: seq<int>, k: int)
    requires |ms| == |scores| && StrictlyIncreasing(ms) && FirstMaximum(scores, k)
    ensures forall j :: 0 <= j < |ms| && ms[j] < ms[k] ==> scores[j] < scores[k]
    ensures forall j :: 0 <= j < |ms| && ms[j] > ms[k] ==> scores[j] <= scores[k]
  {
  }
}
