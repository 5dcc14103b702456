/**
  The board data model of checkers_2.c: an 8x8 grid of small integer codes
  (0 empty, 1 and 2 the two sides' men, 3 and 4 their kings), squares, moves,
  piece counting, the starting position and the board copy.
*/
module BoardState {

  const BoardSize: int := 8
  const Empty: int := 0
  const Player1: int := 1
  const Player2: int := 2
  /** Most pieces a side has in the starting position. */
  const PiecesPerSide: int := 12

  datatype Square = Square(row: int, col: int)

  /** A move (fromRow, fromCol, toRow, toCol). */
  datatype Move = Move(from: Square, to: Square)

  predicate IsGrid(g: seq<seq<int>>)
  {
    |g| == BoardSize && forall r :: 0 <= r < |g| ==> |g[r]| == BoardSize
  }

  function EmptyGrid(): seq<seq<int>>
  {
    seq(BoardSize, _ => seq(BoardSize, _ => Empty))
  }

  /** `int board[BOARD_SIZE][BOARD_SIZE]`, as a value. */
  type Board = g: seq<seq<int>> | IsGrid(g) witness EmptyGrid()

  predicate InBounds(s: Square)
  {
    0 <= s.row < BoardSize && 0 <= s.col < BoardSize
  }

  function At(b: Board, s: Square): int
    requires InBounds(s)
  {
    b[s.row][s.col]
  }

  /** The board with square `s` overwritten by `v`. */
  function Put(b: Board, s: Square, v: int): (r: Board)
    requires InBounds(s)
    ensures At(r, s) == v
    ensures forall t :: InBounds(t) && t != s ==> At(r, t) == At(b, t)
  {
    b[s.row := b[s.row][s.col := v]]
  }

  function EmptyBoard(): (b: Board)
    ensures forall s :: InBounds(s) ==> At(b, s) == Empty
  {
    EmptyGrid()
  }

  /** The code `v` is a man or a king of side `p` (`v == p || v == p + 2`). */
  predicate BelongsTo(v: int, p: int)
  {
    v == p || v == p + 2
  }

  predicate IsMan(v: int)
  {
    v == Player1 || v == Player2
  }

  predicate IsKing(v: int)
  {
    v == Player1 + 2 || v == Player2 + 2
  }

  predicate IsSide(p: int)
  {
    p == Player1 || p == Player2
  }

  function Indicator(v: int, p: int): nat
  {
    if BelongsTo(v, p) then 1 else 0
  }

  /** Pieces of side `p` in a row (or a prefix of one). */
  function CountRow(row: seq<int>, p: int): nat
  {
    if |row| == 0 then 0 else CountRow(row[..|row| - 1], p) + Indicator(row[|row| - 1], p)
  }

  /** Pieces of side `p` in a sequence of rows (or the first rows of a board). */
  function CountRows(rows: seq<seq<int>>, p: int): nat
  {
    if |rows| == 0 then 0 else CountRows(rows[..|rows| - 1], p) + CountRow(rows[|rows| - 1], p)
  }

  /** Men plus kings of side `p`, the tally kept by isGameOver and evaluatePosition. */
  function Count(b: Board, p: int): nat
  {
    CountRows(b, p)
  }

  /** All pieces on the board, of both sides. */
  function TotalPieces(b: Board): nat
  {
    Count(b, Player1) + Count(b, Player2)
  }

  /** No square holds a piece of side `p`. */
  ghost predicate NoPieces(b: Board, p: int)
  {
    forall s :: InBounds(s) ==> !BelongsTo(At(b, s), p)
  }

  /** Every square holds one of the five codes 0..4. */
  ghost predicate CellsInRange(b: Board)
  {
    forall s :: InBounds(s) ==> 0 <= At(b, s) <= 4
  }

  /** The squares pieces live on: row + col odd. */
  predicate IsDark(s: Square)
  {
    (s.row + s.col) % 2 == 1
  }

  ghost predicate OnDarkSquares(b: Board)
  {
    forall s :: InBounds(s) && At(b, s) != Empty ==> IsDark(s)
  }

  /** Neither side has more pieces than it starts with. */
  ghost predicate WithinPieceLimit(b: Board)
  {
    Count(b, Player1) <= PiecesPerSide && Count(b, Player2) <= PiecesPerSide
  }

  /** The invariant every position reached from the start keeps. */
  ghost predicate LegalPosition(b: Board)
  {
    CellsInRange(b) && OnDarkSquares(b) && WithinPieceLimit(b)
  }

  // ---------------------------------------------------------------------
  // Counting lemmas

  lemma {:induction false} CountRowUpdate(row: seq<int>, p: int, i: nat, v: int)
    requires i < |row|
    ensures CountRow(row[i := v], p) == CountRow(row, p) - Indicator(row[i], p) + Indicator(v, p)
    decreases |row|
  {
    var n := |row| - 1;
    if i < n {
      assert row[i := v][..n] == row[..n][i := v];
      CountRowUpdate(row[..n], p, i, v);
    } else {
      assert row[i := v][..n] == row[..n];
    }
  }

  lemma {:induction false} CountRowsUpdate(rows: seq<seq<int>>, p: int, r: nat, c: nat, v: int)
    requires r < |rows| && c < |rows[r]|
    ensures CountRows(rows[r := rows[r][c := v]], p)
         == CountRows(rows, p) - Indicator(rows[r][c], p) + Indicator(v, p)
    decreases |rows|
  {
    var n := |rows| - 1;
    if r < n {
      assert rows[r := rows[r][c := v]][..n] == rows[..n][r := rows[r][c := v]];
      CountRowsUpdate(rows[..n], p, r, c, v);
    } else {
      assert rows[r := rows[r][c := v]][..n] == rows[..n];
      CountRowUpdate(rows[r], p, c, v);
    }
  }

  /** Overwriting one square changes a side's count by what left and what arrived. */
  lemma CountPut(b: Board, p: int, s: Square, v: int)
    requires InBounds(s)
    ensures Count(Put(b, s, v), p) == Count(b, p) - Indicator(At(b, s), p) + Indicator(v, p)
  {
    CountRowsUpdate(b, p, s.row, s.col, v);
  }

  lemma {:induction false} CountRowZero(row: seq<int>, p: int)
    ensures CountRow(row, p) == 0 <==> forall j :: 0 <= j < |row| ==> !BelongsTo(row[j], p)
    decreases |row|
  {
    if |row| > 0 {
      var n := |row| - 1;
      CountRowZero(row[..n], p);
      if CountRow(row, p) == 0 {
        forall j | 0 <= j < |row|
          ensures !BelongsTo(row[j], p)
        {
          if j < n {
            assert row[..n][j] == row[j];
          }
        }
      }
    }
  }

  lemma {:induction false} CountRowsZero(rows: seq<seq<int>>, p: int)
    ensures CountRows(rows, p) == 0
        <==> forall r, c :: 0 <= r < |rows| && 0 <= c < |rows[r]| ==> !BelongsTo(rows[r][c], p)
    decreases |rows|
  {
    if |rows| > 0 {
      var n := |rows| - 1;
      CountRowsZero(rows[..n], p);
      CountRowZero(rows[n], p);
      if CountRows(rows, p) == 0 {
        forall r, c | 0 <= r < |rows| && 0 <= c < |rows[r]|
          ensures !BelongsTo(rows[r][c], p)
        {
          if r < n {
            assert rows[..n][r] == rows[r];
          }
        }
      }
    }
  }

  /** A side's count is zero exactly when no square holds one of its pieces. */
  lemma CountZeroIffNoPieces(b: Board, p: int)
    ensures Count(b, p) == 0 <==> NoPieces(b, p)
  {
    CountRowsZero(b, p);
    if NoPieces(b, p) {
      forall r, c | 0 <= r < |b| && 0 <= c < |b[r]|
        ensures !BelongsTo(b[r][c], p)
      {
        assert At(b, Square(r, c)) == b[r][c];
      }
    }
  }

  // ---------------------------------------------------------------------
  // Starting position and copy

  function InitialCell(s: Square): int
  {
    if (s.row + s.col) % 2 == 1 then
      if s.row < 3 then Player2
      else if s.row > BoardSize - 4 then Player1
      else Empty
    else Empty
  }

  /** Row `r` of the starting position, written out. */
  function InitialRow(r: int): seq<int>
  {
    if r < 3 then (if r % 2 == 0 then [0, 2, 0, 2, 0, 2, 0, 2] else [2, 0, 2, 0, 2, 0, 2, 0])
    else if r > 4 then (if r % 2 == 0 then [0, 1, 0, 1, 0, 1, 0, 1] else [1, 0, 1, 0, 1, 0, 1, 0])
    else [0, 0, 0, 0, 0, 0, 0, 0]
  }

  lemma InitialRowShape(b: Board, r: int)
    requires 0 <= r < BoardSize
    requires forall s :: InBounds(s) ==> At(b, s) == InitialCell(s)
    ensures b[r] == InitialRow(r)
  {
    forall c | 0 <= c < BoardSize
      ensures b[r][c] == InitialRow(r)[c]
    {
      assert At(b, Square(r, c)) == b[r][c];
    }
  }

  lemma InitialRowCount(r: int, p: int)
    requires 0 <= r < BoardSize && IsSide(p)
    ensures CountRow(InitialRow(r), p)
         == if (p == Player2 && r < 3) || (p == Player1 && r > 4) then 4 else 0
  {
    CountRowOfEight(InitialRow(r), p);
  }

  lemma CountRowOfEight(row: seq<int>, p: int)
    requires |row| == BoardSize
    ensures CountRow(row, p)
         == Indicator(row[0], p) + Indicator(row[1], p) + Indicator(row[2], p) + Indicator(row[3], p)
          + Indicator(row[4], p) + Indicator(row[5], p) + Indicator(row[6], p) + Indicator(row[7], p)
  {
    assert CountRow(row[..1], p) == Indicator(row[0], p) by { assert row[..1][..0] == []; }
    assert CountRow(row[..2], p) == CountRow(row[..1], p) + Indicator(row[1], p) by { assert row[..2][..1] == row[..1]; }
    assert CountRow(row[..3], p) == CountRow(row[..2], p) + Indicator(row[2], p) by { assert row[..3][..2] == row[..2]; }
    assert CountRow(row[..4], p) == CountRow(row[..3], p) + Indicator(row[3], p) by { assert row[..4][..3] == row[..3]; }
    assert CountRow(row[..5], p) == CountRow(row[..4], p) + Indicator(row[4], p) by { assert row[..5][..4] == row[..4]; }
    assert CountRow(row[..6], p) == CountRow(row[..5], p) + Indicator(row[5], p) by { assert row[..6][..5] == row[..5]; }
    assert CountRow(row[..7], p) == CountRow(row[..6], p) + Indicator(row[6], p) by { assert row[..7][..6] == row[..6]; }
  }

  lemma InitialRowCounts(b: Board, p: int)
    requires IsSide(p)
    requires forall s :: InBounds(s) ==> At(b, s) == InitialCell(s)
    ensures Count(b, p) == PiecesPerSide
  {
    forall r | 0 <= r < BoardSize
      ensures CountRow(b[r], p)
           == if (p == Player2 && r < 3) || (p == Player1 && r > 4) then 4 else 0
    {
      InitialRowShape(b, r);
      InitialRowCount(r, p);
    }
    assert CountRows(b[..1], p) == CountRow(b[0], p);
    assert CountRows(b[..2], p) == CountRows(b[..1], p) + CountRow(b[1], p) by { assert b[..2][..1] == b[..1]; }
    assert CountRows(b[..3], p) == CountRows(b[..2], p) + CountRow(b[2], p) by { assert b[..3][..2] == b[..2]; }
    assert CountRows(b[..4], p) == CountRows(b[..3], p) + CountRow(b[3], p) by { assert b[..4][..3] == b[..3]; }
    assert CountRows(b[..5], p) == CountRows(b[..4], p) + CountRow(b[4], p) by { assert b[..5][..4] == b[..4]; }
    assert CountRows(b[..6], p) == CountRows(b[..5], p) + CountRow(b[5], p) by { assert b[..6][..5] == b[..5]; }
    assert CountRows(b[..7], p) == CountRows(b[..6], p) + CountRow(b[6], p) by { assert b[..7][..6] == b[..6]; }
    assert CountRows(b, p) == CountRows(b[..7], p) + CountRow(b[7], p);
  }

  /** initializeBoard: three rows of men per side on the dark squares, side 2 on rows 0..2. */
  function InitializeBoard(): (b: Board)
    ensures LegalPosition(b)
    ensures Count(b, Player1) == PiecesPerSide && Count(b, Player2) == PiecesPerSide
    ensures forall s :: InBounds(s) && BelongsTo(At(b, s), Player2) ==> s.row < 3 && !IsKing(At(b, s))
    ensures forall s :: InBounds(s) && BelongsTo(At(b, s), Player1) ==> s.row > 4 && !IsKing(At(b, s))
  {
    var b: Board := seq(BoardSize, r => seq(BoardSize, c => InitialCell(Square(r, c))));
    InitialRowCounts(b, Player1);
    InitialRowCounts(b, Player2);
    b
  }

  /** copyBoard: the cell-by-cell copy yields the same board value. */
  method CopyBoard(src: Board) returns (dest: Board)
    ensures dest == src
  {
    var grid := EmptyGrid();
    for r := 0 to BoardSize
      invariant IsGrid(grid)
      invariant forall i :: 0 <= i < r ==> grid[i] == src[i]
    {
      for c := 0 to BoardSize
        invariant IsGrid(grid)
        invariant forall i :: 0 <= i < r ==> grid[i] == src[i]
        invariant forall j :: 0 <= j < c ==> grid[r][j] == src[r][j]
      {
        grid := grid[r := grid[r][c := src[r][c]]];
      }
      assert grid[r] == src[r];
    }
    dest := grid;
  }
}
