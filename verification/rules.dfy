/**
  Move legality and move application of checkers_2.c (isNotWithinBounds,
  isValidMove, makeMove), stated over immutable boards.
*/
module RulesEngine {
  import opened Wrappers
  import opened BoardState

  function Abs(x: int): nat
  {
    if x < 0 then -x else x
  }

  /** The exact quotient `delta / |delta|` the source uses as a step direction. */
  function Direction(delta: int): int
    requires delta != 0
  {
    if delta > 0 then 1 else -1
  }

  /** isNotWithinBounds: the square lies off the 8x8 grid. */
  predicate OutOfBounds(s: Square)
    ensures OutOfBounds(s) <==> !InBounds(s)
  {
    s.row < 0 || s.row >= BoardSize || s.col < 0 || s.col >= BoardSize
  }

  function RowDelta(m: Move): int { m.to.row - m.from.row }
  function ColDelta(m: Move): int { m.to.col - m.from.col }

  /** A non-null displacement with equal row and column distance. */
  predicate IsDiagonal(m: Move)
  {
    RowDelta(m) != 0 && Abs(RowDelta(m)) == Abs(ColDelta(m))
  }

  /** Number of diagonal steps of a diagonal move. */
  function Distance(m: Move): nat
  {
    Abs(RowDelta(m))
  }

  /** The square `i` steps from the origin along the move's diagonal. */
  function PathSquare(m: Move, i: int): (s: Square)
    requires IsDiagonal(m)
    ensures InBounds(m.from) && InBounds(m.to) && 0 <= i <= Distance(m) ==> InBounds(s)
  {
    var rowDir := Direction(RowDelta(m));
    var colDir := Direction(ColDelta(m));
    Square(m.from.row + i * rowDir, m.from.col + i * colDir)
  }

  /** The square jumped over by a distance-2 move: `((from + to) / 2)` coordinate-wise. */
  function Midpoint(m: Move): (s: Square)
    ensures InBounds(m.from) && InBounds(m.to) ==> InBounds(s)
  {
    Square((m.from.row + m.to.row) / 2, (m.from.col + m.to.col) / 2)
  }

  /** The king path loop `for (i = 1; i < rowDiff - 1; i++)`: squares i.. up to rowDiff - 2 are empty. */
  function KingPathClear(b: Board, m: Move, i: int): bool
    requires InBounds(m.from) && InBounds(m.to) && IsDiagonal(m) && 1 <= i
    decreases Distance(m) - i
  {
    if i >= Distance(m) - 1 then true
    else At(b, PathSquare(m, i)) == Empty && KingPathClear(b, m, i + 1)
  }

  /**
    isValidMove. Only the destination is bounds-checked; the origin must be on
    the board. Ownership of the moving piece is not checked here.
  */
  function IsValidMove(b: Board, turn: int, m: Move): (ok: bool)
    requires InBounds(m.from)
    ensures ok ==> InBounds(m.to) && At(b, m.from) != Empty && At(b, m.to) == Empty && IsDiagonal(m)
  {
    if OutOfBounds(m.to) then false
    else if At(b, m.from) == Empty then false
    else if At(b, m.to) != Empty then false
    else
      var rowDiff := Abs(m.to.row - m.from.row);
      var colDiff := Abs(m.to.col - m.from.col);
      if rowDiff == 0 || colDiff == 0 || rowDiff != colDiff then false
      else
        var isKing := At(b, m.from) == turn + 2;
        var direction := if turn == Player1 then -1 else 1;
        var rowMove := m.to.row - m.from.row;
        if rowMove * direction < 0 && !isKing then false
        else
          var distance := if colDiff > rowDiff then colDiff else rowDiff;
          if distance != 1 && distance != 2 && !isKing then false
          else if distance == 2 && !isKing && !CanBeJumped(At(b, Midpoint(m)), turn) then false
          // The source repeats the rowDiff != colDiff test for kings; it cannot fail here.
          else if isKing then KingPathClear(b, m, 1)
          else true
  }

  /** The middle square of a man's jump holds something other than an empty square or a piece of `turn`. */
  predicate CanBeJumped(v: int, turn: int)
  {
    v != Empty && v != turn && v != turn + 2
  }

  /** Row a man of `turn` must move towards: decreasing for side 1, increasing otherwise. */
  predicate MovesForward(turn: int, m: Move)
  {
    if turn == Player1 then m.to.row < m.from.row else m.to.row > m.from.row
  }

  /** The checks isValidMove applies to every piece. */
  predicate BasicShape(b: Board, m: Move)
    requires InBounds(m.from)
  {
    InBounds(m.to) && At(b, m.from) != Empty && At(b, m.to) == Empty && IsDiagonal(m)
  }

  /** Destination row on which a man of `turn` is crowned. */
  predicate IsCrowningRow(turn: int, row: int)
  {
    (turn == Player1 && row == 0) || (turn == Player2 && row == BoardSize - 1)
  }

  predicate MakeMoveReady(b: Board, turn: int, m: Move)
  {
    InBounds(m.from) && InBounds(m.to)
    && (At(b, m.from) == turn + 2 ==> RowDelta(m) != 0 && ColDelta(m) != 0)
  }

  /** The square makeMove clears besides the origin, if any. */
  function CapturedSquare(b: Board, turn: int, m: Move): (c: Option<Square>)
    requires MakeMoveReady(b, turn, m)
    ensures c.Some? ==> InBounds(c.value) && c.value != m.to
  {
    if At(b, m.from) == turn + 2 then
      Some(Square(m.to.row - Direction(RowDelta(m)), m.to.col - Direction(ColDelta(m))))
    else if Abs(RowDelta(m)) == 2 then Some(Midpoint(m))
    else None
  }

  /**
    makeMove: move the piece, crown a man on the far row, then clear the jumped
    square: the midpoint for a man's distance-2 move, the square just before the
    destination for any king move.
  */
  function MakeMove(b: Board, turn: int, m: Move): (r: Board)
    requires MakeMoveReady(b, turn, m)
    ensures At(r, m.from) == Empty
    ensures m.from != m.to ==>
      At(r, m.to) == (if IsCrowningRow(turn, m.to.row) && IsMan(At(b, m.from))
                      then At(b, m.from) + 2 else At(b, m.from))
    ensures m.from != m.to && IsKing(At(b, m.from)) ==> At(r, m.to) == At(b, m.from)
    ensures CapturedSquare(b, turn, m).Some? ==> At(r, CapturedSquare(b, turn, m).value) == Empty
    ensures forall s :: InBounds(s) && s != m.from && s != m.to && Some(s) != CapturedSquare(b, turn, m)
                        ==> At(r, s) == At(b, s)
  {
    var moved := Relocate(b, turn, m);
    match CapturedSquare(b, turn, m)
    case Some(c) => Put(moved, c, Empty)
    case None => moved
  }

  /** The first half of makeMove: copy the piece over, empty the origin, crown a man on the far row. */
  function Relocate(b: Board, turn: int, m: Move): Board
    requires InBounds(m.from) && InBounds(m.to)
  {
    var b2 := Put(Put(b, m.to, At(b, m.from)), m.from, Empty);
    if IsCrowningRow(turn, m.to.row) && (At(b2, m.to) == Player1 || At(b2, m.to) == Player2)
    then Put(b2, m.to, At(b2, m.to) + 2)
    else b2
  }

  // ---------------------------------------------------------------------
  // Legality

  lemma {:induction false} KingPathClearIff(b: Board, m: Move, i: int)
    requires InBounds(m.from) && InBounds(m.to) && IsDiagonal(m) && 1 <= i
    ensures KingPathClear(b, m, i)
        <==> forall k :: i <= k < Distance(m) - 1 ==> At(b, PathSquare(m, k)) == Empty
    decreases Distance(m) - i
  {
    if i < Distance(m) - 1 {
      KingPathClearIff(b, m, i + 1);
    }
  }

  /**
    A piece that is not a king of `turn` may move one square forward, or two
    squares forward over a square holding neither nothing nor a piece of `turn`.
  */
  lemma ManMoveRule(b: Board, turn: int, m: Move)
    requires InBounds(m.from) && At(b, m.from) != turn + 2
    ensures IsValidMove(b, turn, m)
        <==> BasicShape(b, m) && MovesForward(turn, m)
             && (Distance(m) == 1 || (Distance(m) == 2 && CanBeJumped(At(b, Midpoint(m)), turn)))
  {
  }

  /**
    A king of `turn` may move any distance along a diagonal whose squares
    strictly between the origin and the square before the destination are empty.
  */
  lemma KingMoveRule(b: Board, turn: int, m: Move)
    requires InBounds(m.from) && At(b, m.from) == turn + 2
    ensures IsValidMove(b, turn, m)
        <==> BasicShape(b, m)
             && forall k :: 1 <= k < Distance(m) - 1 ==> At(b, PathSquare(m, k)) == Empty
  {
    if BasicShape(b, m) {
      KingPathClearIff(b, m, 1);
    }
  }

  // ---------------------------------------------------------------------
  // Effect of makeMove on the pieces

  /**
    Each side loses what stood on the destination and what stood on the
    cleared square (unless that square is the origin, which a distance-1 king
    move clears twice).
  */
  lemma MakeMoveCount(b: Board, turn: int, m: Move, p: int)
    requires MakeMoveReady(b, turn, m) && m.from != m.to && IsSide(p)
    ensures var c := CapturedSquare(b, turn, m);
      Count(MakeMove(b, turn, m), p)
      == Count(b, p) - Indicator(At(b, m.to), p)
         - (if c.Some? && c.value != m.from then Indicator(At(b, c.value), p) else 0)
  {
    var v := At(b, m.from);
    var b1 := Put(b, m.to, v);
    CountPut(b, p, m.to, v);
    var b2 := Put(b1, m.from, Empty);
    CountPut(b1, p, m.from, Empty);
    if IsCrowningRow(turn, m.to.row) && (v == Player1 || v == Player2) {
      CountPut(b2, p, m.to, v + 2);
    }
    var moved := Relocate(b, turn, m);
    assert Count(moved, p) == Count(b, p) - Indicator(At(b, m.to), p);
    var c := CapturedSquare(b, turn, m);
    if c.Some? {
      CountPut(moved, p, c.value, Empty);
      assert c.value != m.from ==> At(moved, c.value) == At(b, c.value);
    }
  }

  /**
    On a legal move the number of pieces on the board drops by at most one:
    exactly one for a man's jump, none for any one-square move.
  */
  lemma ValidMoveCount(b: Board, turn: int, m: Move)
    requires InBounds(m.from) && IsValidMove(b, turn, m) && CellsInRange(b)
    ensures TotalPieces(MakeMove(b, turn, m)) == TotalPieces(b)
         || TotalPieces(MakeMove(b, turn, m)) == TotalPieces(b) - 1
    ensures At(b, m.from) != turn + 2 && Distance(m) == 2
            ==> TotalPieces(MakeMove(b, turn, m)) == TotalPieces(b) - 1
    ensures Distance(m) == 1 ==> TotalPieces(MakeMove(b, turn, m)) == TotalPieces(b)
  {
    MakeMoveCount(b, turn, m, Player1);
    MakeMoveCount(b, turn, m, Player2);
    var c := CapturedSquare(b, turn, m);
    if At(b, m.from) != turn + 2 && Distance(m) == 2 {
      ManMoveRule(b, turn, m);
      assert c == Some(Midpoint(m));
      assert c.value != m.from;
      var x := At(b, c.value);
      assert 0 <= x <= 4;
      assert Indicator(x, Player1) + Indicator(x, Player2) == 1;
    }
    if Distance(m) == 1 && c.Some? {
      assert c.value == m.from;
    }
    if c.Some? && c.value != m.from {
      var x := At(b, c.value);
      assert Indicator(x, Player1) + Indicator(x, Player2) <= 1;
    }
  }

  /** makeMove never adds pieces to either side. */
  lemma MakeMoveNeverAddsPieces(b: Board, turn: int, m: Move, p: int)
    requires MakeMoveReady(b, turn, m) && m.from != m.to && IsSide(p)
    ensures Count(MakeMove(b, turn, m), p) <= Count(b, p)
  {
    MakeMoveCount(b, turn, m, p);
  }

  /** A diagonal move starting on a dark square ends on one. */
  lemma DiagonalKeepsColour(m: Move)
    requires IsDiagonal(m) && IsDark(m.from)
    ensures IsDark(m.to)
  {
    assert (m.to.row + m.to.col) - (m.from.row + m.from.col) == RowDelta(m) + ColDelta(m);
  }

  /** makeMove only writes pieces onto the destination, so a dark destination keeps pieces on dark squares. */
  lemma MakeMoveOntoDarkSquare(b: Board, turn: int, m: Move)
    requires MakeMoveReady(b, turn, m) && IsDark(m.to) && OnDarkSquares(b)
    ensures OnDarkSquares(MakeMove(b, turn, m))
  {
    var r := MakeMove(b, turn, m);
    forall s | InBounds(s) && At(r, s) != Empty
      ensures IsDark(s)
    {
      if s != m.from && s != m.to && Some(s) != CapturedSquare(b, turn, m) {
        assert At(r, s) == At(b, s);
      }
    }
  }

  /** A legal move keeps every piece on a dark square. */
  lemma MakeMoveKeepsDarkSquares(b: Board, turn: int, m: Move)
    requires InBounds(m.from) && IsValidMove(b, turn, m) && OnDarkSquares(b)
    ensures OnDarkSquares(MakeMove(b, turn, m))
  {
    DiagonalKeepsColour(m);
    MakeMoveOntoDarkSquare(b, turn, m);
  }

  /** A legal move keeps every cell code in 0..4. */
  lemma MakeMoveKeepsCellCodes(b: Board, turn: int, m: Move)
    requires InBounds(m.from) && IsValidMove(b, turn, m) && CellsInRange(b)
    ensures CellsInRange(MakeMove(b, turn, m))
  {
    var r := MakeMove(b, turn, m);
    forall s | InBounds(s)
      ensures 0 <= At(r, s) <= 4
    {
      if s != m.from && s != m.to && Some(s) != CapturedSquare(b, turn, m) {
        assert At(r, s) == At(b, s);
      }
    }
  }

  /** A legal move keeps codes in 0..4, pieces on dark squares, and at most twelve pieces a side. */
  lemma MakeMoveKeepsLegalPosition(b: Board, turn: int, m: Move)
    requires InBounds(m.from) && IsValidMove(b, turn, m) && LegalPosition(b)
    ensures LegalPosition(MakeMove(b, turn, m))
  {
    MakeMoveNeverAddsPieces(b, turn, m, Player1);
    MakeMoveNeverAddsPieces(b, turn, m, Player2);
    MakeMoveKeepsDarkSquares(b, turn, m);
    MakeMoveKeepsCellCodes(b, turn, m);
  }

  // ---------------------------------------------------------------------
  // Worked positions

  /** A side-1 man jumps a side-2 man onto row 0: the jumped man goes and the mover is crowned. */
  lemma CaptureAndCrownExample()
    ensures var b := Put(Put(EmptyBoard(), Square(2, 3), Player1), Square(1, 2), Player2);
            var m := Move(Square(2, 3), Square(0, 1));
            var r := MakeMove(b, Player1, m);
            IsValidMove(b, Player1, m)
            && At(r, Square(0, 1)) == Player1 + 2
            && At(r, Square(1, 2)) == Empty
            && Count(r, Player2) == Count(b, Player2) - 1
  {
    var b := Put(Put(EmptyBoard(), Square(2, 3), Player1), Square(1, 2), Player2);
    var m := Move(Square(2, 3), Square(0, 1));
    assert IsValidMove(b, Player1, m);
    MakeMoveCount(b, Player1, m, Player2);
  }

  /**
    The king rule clears the square before the destination without looking at
    it: a king of side 2 moving three squares removes its own man.
  */
  lemma KingRemovesOwnPieceExample()
    ensures var b := Put(Put(EmptyBoard(), Square(0, 1), Player2 + 2), Square(2, 3), Player2);
            var m := Move(Square(0, 1), Square(3, 4));
            var r := MakeMove(b, Player2, m);
            IsValidMove(b, Player2, m)
            && At(b, Square(2, 3)) == Player2
            && At(r, Square(2, 3)) == Empty
            && Count(r, Player2) == Count(b, Player2) - 1
  {
    var b := Put(Put(EmptyBoard(), Square(0, 1), Player2 + 2), Square(2, 3), Player2);
    var m := Move(Square(0, 1), Square(3, 4));
    assert KingPathClear(b, m, 2);
    assert PathSquare(m, 1) == Square(1, 2);
    assert KingPathClear(b, m, 1);
    assert IsValidMove(b, Player2, m);
    MakeMoveCount(b, Player2, m, Player2);
  }
}
