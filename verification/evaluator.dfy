/**
  The static evaluator of checkers_2.c (evaluatePosition): material, a
  centre bonus on rows 3-4 / columns 2-5, and ten points per piece of lead.
  Positive scores favour side 2.
*/
module Evaluator {
  import opened BoardState

  /** Score bound of any position with at most twelve pieces a side. */
  const MaxEvaluation: int := 4520

  function PieceValue(v: int): int
  {
    if v == Player2 then 100
    else if v == Player1 then -100
    else if v == Player2 + 2 then 300
    else if v == Player1 + 2 then -300
    else 0
  }

  predicate InCenter(r: int, c: int)
  {
    3 <= r <= 4 && 2 <= c <= 5
  }

  function CenterBonus(r: int, c: int, v: int): int
  {
    if InCenter(r, c) then
      if v == Player2 then 50
      else if v == Player1 then -50
      else if v == Player2 + 2 then 100
      else if v == Player1 + 2 then -100
      else 0
    else 0
  }

  function CellScore(r: int, c: int, v: int): int
  {
    PieceValue(v) + CenterBonus(r, c, v)
  }

  /** Sum of the cell scores of row `r` (or a prefix of it; a cell's column is its position). */
  function RowScore(row: seq<int>, r: int): int
  {
    if |row| == 0 then 0
    else RowScore(row[..|row| - 1], r) + CellScore(r, |row| - 1, row[|row| - 1])
  }

  /** Sum of the cell scores of the first rows of a board (a row's number is its position). */
  function RowsScore(rows: seq<seq<int>>): int
  {
    if |rows| == 0 then 0
    else RowsScore(rows[..|rows| - 1]) + RowScore(rows[|rows| - 1], |rows| - 1)
  }

  /**
    evaluatePosition. With at most twelve pieces a side the score stays within
    4520, strictly inside the 9999 sentinels of the search.
  */
  function EvaluatePosition(b: Board): (score: int)
    ensures WithinPieceLimit(b) ==> -MaxEvaluation <= score <= MaxEvaluation
  {
    RowsScoreBound(b);
    RowsScore(b) + 10 * (Count(b, Player2) - Count(b, Player1))
  }

  // ---------------------------------------------------------------------
  // No pieces, no score

  lemma {:induction false} RowScoreNoPieces(row: seq<int>, r: int)
    requires forall j :: 0 <= j < |row| ==> !BelongsTo(row[j], Player1) && !BelongsTo(row[j], Player2)
    ensures RowScore(row, r) == 0
    decreases |row|
  {
    if |row| > 0 {
      RowScoreNoPieces(row[..|row| - 1], r);
    }
  }

  lemma {:induction false} RowsScoreNoPieces(rows: seq<seq<int>>)
    requires forall i, j :: 0 <= i < |rows| && 0 <= j < |rows[i]|
                            ==> !BelongsTo(rows[i][j], Player1) && !BelongsTo(rows[i][j], Player2)
    ensures RowsScore(rows) == 0
    decreases |rows|
  {
    if |rows| > 0 {
      var n := |rows| - 1;
      assert forall i :: 0 <= i < n ==> rows[..n][i] == rows[i];
      RowsScoreNoPieces(rows[..n]);
      RowScoreNoPieces(rows[n], n);
    }
  }

  /** A board without pieces (the empty board in particular) scores zero. */
  lemma EvaluateNoPieces(b: Board)
    requires NoPieces(b, Player1) && NoPieces(b, Player2)
    ensures EvaluatePosition(b) == 0
  {
    forall i, j | 0 <= i < |b| && 0 <= j < |b[i]|
      ensures !BelongsTo(b[i][j], Player1) && !BelongsTo(b[i][j], Player2)
    {
      assert At(b, Square(i, j)) == b[i][j];
    }
    RowsScoreNoPieces(b);
    CountZeroIffNoPieces(b, Player1);
    CountZeroIffNoPieces(b, Player2);
  }

  lemma EvaluateEmptyBoard()
    ensures EvaluatePosition(EmptyBoard()) == 0
  {
    EvaluateNoPieces(EmptyBoard());
  }

  // ---------------------------------------------------------------------
  // Swapping the sides negates the score

  /** Exchange the two sides' codes: 1 and 2, 3 and 4. */
  function SwapSide(v: int): int
  {
    if v == Player1 then Player2
    else if v == Player2 then Player1
    else if v == Player1 + 2 then Player2 + 2
    else if v == Player2 + 2 then Player1 + 2
    else v
  }

  function SwapRow(row: seq<int>): (r: seq<int>)
    ensures |r| == |row|
  {
    seq(|row|, j requires 0 <= j < |row| => SwapSide(row[j]))
  }

  /** The board with every piece handed to the other side. */
  function SwapColours(b: Board): (r: Board)
    ensures forall s :: InBounds(s) ==> At(r, s) == SwapSide(At(b, s))
  {
    seq(BoardSize, i requires 0 <= i < BoardSize => SwapRow(b[i]))
  }

  lemma {:induction false} SwapRowFacts(row: seq<int>, r: int)
    ensures RowScore(SwapRow(row), r) == -RowScore(row, r)
    ensures CountRow(SwapRow(row), Player1) == CountRow(row, Player2)
    ensures CountRow(SwapRow(row), Player2) == CountRow(row, Player1)
    decreases |row|
  {
    if |row| > 0 {
      var n := |row| - 1;
      assert SwapRow(row)[..n] == SwapRow(row[..n]);
      SwapRowFacts(row[..n], r);
    }
  }

  lemma {:induction false} SwapRowsFacts(rows: seq<seq<int>>)
    ensures var swapped := seq(|rows|, i requires 0 <= i < |rows| => SwapRow(rows[i]));
      && RowsScore(swapped) == -RowsScore(rows)
      && CountRows(swapped, Player1) == CountRows(rows, Player2)
      && CountRows(swapped, Player2) == CountRows(rows, Player1)
    decreases |rows|
  {
    if |rows| > 0 {
      var n := |rows| - 1;
      var swapped := seq(|rows|, i requires 0 <= i < |rows| => SwapRow(rows[i]));
      assert swapped[..n] == seq(n, i requires 0 <= i < n => SwapRow(rows[..n][i]));
      SwapRowsFacts(rows[..n]);
      SwapRowFacts(rows[n], n);
    }
  }

  /** The evaluator is antisymmetric: handing every piece to the other side negates the score. */
  lemma EvaluateSwapColours(b: Board)
    ensures EvaluatePosition(SwapColours(b)) == -EvaluatePosition(b)
  {
    SwapRowsFacts(b);
    assert SwapColours(b) == seq(|b|, i requires 0 <= i < |b| => SwapRow(b[i]));
  }

  // ---------------------------------------------------------------------
  // Bound

  /** 100 points per centre square among the first `n` columns of row `r`. */
  function CenterCap(r: int, n: int): int
  {
    if 3 <= r <= 4 then 100 * ((if n < 6 then n else 6) - (if n < 2 then n else 2)) else 0
  }

  /** CenterCap summed over the first `k` full rows. */
  function CenterRowsCap(k: int): int
  {
    400 * ((if k < 5 then k else 5) - (if k < 3 then k else 3))
  }

  lemma {:induction false} RowScoreBound(row: seq<int>, r: int)
    ensures RowScore(row, r) <= 300 * CountRow(row, Player2) + CenterCap(r, |row|)
    ensures RowScore(row, r) >= -300 * CountRow(row, Player1) - CenterCap(r, |row|)
    decreases |row|
  {
    if |row| > 0 {
      RowScoreBound(row[..|row| - 1], r);
    }
  }

  lemma {:induction false} RowsScoreBound(rows: seq<seq<int>>)
    requires forall i :: 0 <= i < |rows| ==> |rows[i]| == BoardSize
    ensures RowsScore(rows) <= 300 * CountRows(rows, Player2) + CenterRowsCap(|rows|)
    ensures RowsScore(rows) >= -300 * CountRows(rows, Player1) - CenterRowsCap(|rows|)
    decreases |rows|
  {
    if |rows| > 0 {
      var n := |rows| - 1;
      RowsScoreBound(rows[..n]);
      RowScoreBound(rows[n], n);
    }
  }
}
