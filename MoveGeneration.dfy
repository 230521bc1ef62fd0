/**
  The legal-move generator: a column is a legal move when its top cell is blank.
*/
module MoveGeneration {
  import opened Grid

  /** A column that can still take a piece. */
  predicate Open(b: Board, c: int)
    requires IsGrid(b)
  {
    0 <= c < Cols(b) && b[0][c] == Blank
  }

  /** The open columns among 0 .. n-1, in ascending order. */
  function LegalUpTo(b: Board, n: nat): seq<int>
    requires IsGrid(b) && n <= Cols(b)
  {
    if n == 0 then []
    else LegalUpTo(b, n - 1) + (if b[0][n - 1] == Blank then [n - 1] else [])
  }

  /**
    The legal moves of a grid, in the order the agent tries them: exactly the
    open columns, ascending, without duplicates.
  */
  function LegalMoves(b: Board): (ms: seq<int>)
    requires IsGrid(b)
    ensures forall c :: c in ms <==> Open(b, c)
    ensures StrictlyIncreasing(ms)
  {
    LegalUpToSpec(b, Cols(b));
    LegalUpTo(b, Cols(b))
  }

  predicate StrictlyIncreasing(s: seq<int>) {
    forall i, j :: 0 <= i < j < |s| ==> s[i] < s[j]
  }

  /**
    The columns collected from 0 .. n-1 are exactly the open ones among them,
    in strictly ascending order (so none is repeated).
  */
  lemma {:induction false} LegalUpToSpec(b: Board, n: nat)
    requires IsGrid(b) && n <= Cols(b)
    ensures forall c :: c in LegalUpTo(b, n) <==> 0 <= c < n && b[0][c] == Blank
    ensures StrictlyIncreasing(LegalUpTo(b, n))
  {
    if n > 0 {
      LegalUpToSpec(b, n - 1);
      var p := LegalUpTo(b, n - 1);
      forall i | 0 <= i < |p|
        ensures p[i] < n - 1
      {
        assert p[i] in p;
      }
    }
  }

  /** Two strictly increasing sequences with the same elements are equal. */
  lemma {:induction false} SameSorted(s: seq<int>, t: seq<int>)
    requires StrictlyIncreasing(s) && StrictlyIncreasing(t)
    requires forall x :: x in s <==> x in t
    ensures s == t
  {
    assert s != [] ==> s[0] in s;
    assert t != [] ==> t[0] in t;
    if s != [] && t != [] {
      var i :| 0 <= i < |s| && s[i] == t[0];
      var j :| 0 <= j < |t| && t[j] == s[0];
      assert s[0] <= s[i] && t[0] <= t[j];
      forall x | x in s[1..]
        ensures x in t[1..]
      {
        var k :| 0 < k < |s| && s[k] == x;
        assert s[0] < s[k] && x in s && x in t;
        var m :| 0 <= m < |t| && t[m] == x;
        assert m != 0 && t[1..][m - 1] == x;
      }
      forall x | x in t[1..]
        ensures x in s[1..]
      {
        var k :| 0 < k < |t| && t[k] == x;
        assert t[0] < t[k] && x in t && x in s;
        var m :| 0 <= m < |s| && s[m] == x;
        assert m != 0 && s[1..][m - 1] == x;
      }
      SameSorted(s[1..], t[1..]);
      assert s == [s[0]] + s[1..] && t == [t[0]] + t[1..];
    }
  }
}
