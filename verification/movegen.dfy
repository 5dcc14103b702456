/**
  Move enumeration and terminal detection of checkers_2.c: hasValidMoves,
  getPossibleMoves (as the sequential row-major scan) and isGameOver.
*/
module MoveGeneration {
  import opened BoardState
  import opened RulesEngine

  const SquareCount: int := BoardSize * BoardSize

  /** Row-major number of a square. */
  function IndexOf(s: Square): int
  {
    s.row * BoardSize + s.col
  }

  /** The square with row-major number `index`; the inverse of IndexOf on the board. */
  function SquareAt(index: int): (s: Square)
    requires 0 <= index < SquareCount
    ensures InBounds(s) && IndexOf(s) == index
  {
    Square(index / BoardSize, index % BoardSize)
  }

  lemma IndexOfInBounds(s: Square)
    requires InBounds(s)
    ensures 0 <= IndexOf(s) < SquareCount && SquareAt(IndexOf(s)) == s
  {
  }

  /** A move both scans accept: the origin holds a man or king of `turn` and isValidMove holds. */
  predicate IsCandidate(b: Board, turn: int, m: Move)
  {
    InBounds(m.from) && BelongsTo(At(b, m.from), turn) && IsValidMove(b, turn, m)
  }

  /** The order of the nested loops: by origin square, then by destination square. */
  predicate Precedes(m1: Move, m2: Move)
  {
    IndexOf(m1.from) < IndexOf(m2.from)
    || (IndexOf(m1.from) == IndexOf(m2.from) && IndexOf(m1.to) < IndexOf(m2.to))
  }

  ghost predicate InScanOrder(ms: seq<Move>)
  {
    forall i, j :: 0 <= i < j < |ms| ==> Precedes(ms[i], ms[j])
  }

  // ---------------------------------------------------------------------
  // hasValidMoves

  /** The inner loops of hasValidMoves: some destination numbered `d` or later is accepted. */
  function HasTargetFrom(b: Board, turn: int, from: Square, d: int): (has: bool)
    requires InBounds(from) && 0 <= d <= SquareCount
    decreases SquareCount - d
    ensures has <==> exists to :: InBounds(to) && d <= IndexOf(to) && IsValidMove(b, turn, Move(from, to))
  {
    if d == SquareCount then false
    else if IsValidMove(b, turn, Move(from, SquareAt(d))) then true
    else
      var rest := HasTargetFrom(b, turn, from, d + 1);
      assert forall to :: InBounds(to) && IndexOf(to) == d ==> to == SquareAt(d);
      rest
  }

  /** The outer loops of hasValidMoves, from origin square number `s` on. */
  function HasMoveFrom(b: Board, turn: int, s: int): (has: bool)
    requires 0 <= s <= SquareCount
    decreases SquareCount - s
    ensures has <==> exists m :: IsCandidate(b, turn, m) && s <= IndexOf(m.from)
  {
    if s == SquareCount then false
    else
      var from := SquareAt(s);
      var here := BelongsTo(At(b, from), turn) && HasTargetFrom(b, turn, from, 0);
      var rest := HasMoveFrom(b, turn, s + 1);
      assert here ==> exists to :: IsCandidate(b, turn, Move(from, to)) && s <= IndexOf(from);
      assert forall m :: IsCandidate(b, turn, m) && IndexOf(m.from) == s ==> m.from == from;
      here || rest
  }

  /** hasValidMoves: side `turn` has a piece with an accepted destination. */
  function HasValidMoves(b: Board, turn: int): (has: bool)
    ensures has <==> exists m :: IsCandidate(b, turn, m)
  {
    HasMoveFrom(b, turn, 0)
  }

  // ---------------------------------------------------------------------
  // getPossibleMoves

  /** The inner loops of getPossibleMoves for one origin, destinations numbered `d` or later. */
  function ScanTargets(b: Board, turn: int, from: Square, d: int): (ms: seq<Move>)
    requires InBounds(from) && 0 <= d <= SquareCount
    decreases SquareCount - d
    ensures forall i :: 0 <= i < |ms| ==>
      ms[i].from == from && InBounds(ms[i].to) && d <= IndexOf(ms[i].to) && IsValidMove(b, turn, ms[i])
    ensures forall to :: InBounds(to) && d <= IndexOf(to) && IsValidMove(b, turn, Move(from, to))
                         ==> Move(from, to) in ms
    ensures InScanOrder(ms)
  {
    if d == SquareCount then []
    else
      var m := Move(from, SquareAt(d));
      var rest := ScanTargets(b, turn, from, d + 1);
      assert forall to :: InBounds(to) && IndexOf(to) == d ==> to == SquareAt(d);
      if IsValidMove(b, turn, m) then [m] + rest else rest
  }

  /** The outer loops of getPossibleMoves, from origin square number `s` on. */
  function ScanSources(b: Board, turn: int, s: int): (ms: seq<Move>)
    requires 0 <= s <= SquareCount
    decreases SquareCount - s
    ensures forall i :: 0 <= i < |ms| ==> IsCandidate(b, turn, ms[i]) && s <= IndexOf(ms[i].from)
    ensures forall m :: IsCandidate(b, turn, m) && s <= IndexOf(m.from) ==> m in ms
    ensures InScanOrder(ms)
  {
    if s == SquareCount then []
    else
      var from := SquareAt(s);
      var here := if BelongsTo(At(b, from), turn) then ScanTargets(b, turn, from, 0) else [];
      var rest := ScanSources(b, turn, s + 1);
      ScanSourcesStep(b, turn, s, here, rest);
      here + rest
  }

  lemma ScanSourcesStep(b: Board, turn: int, s: int, here: seq<Move>, rest: seq<Move>)
    requires 0 <= s < SquareCount
    requires here == if BelongsTo(At(b, SquareAt(s)), turn) then ScanTargets(b, turn, SquareAt(s), 0) else []
    requires forall i :: 0 <= i < |rest| ==> IsCandidate(b, turn, rest[i]) && s + 1 <= IndexOf(rest[i].from)
    requires forall m :: IsCandidate(b, turn, m) && s + 1 <= IndexOf(m.from) ==> m in rest
    requires InScanOrder(rest)
    ensures forall i :: 0 <= i < |here + rest| ==> IsCandidate(b, turn, (here + rest)[i]) && s <= IndexOf((here + rest)[i].from)
    ensures forall m :: IsCandidate(b, turn, m) && s <= IndexOf(m.from) ==> m in here + rest
    ensures InScanOrder(here + rest)
  {
    var from := SquareAt(s);
    assert forall i :: 0 <= i < |here| ==> IsCandidate(b, turn, here[i]) && IndexOf(here[i].from) == s;
    ConcatInScanOrder(here, rest);
    forall m | IsCandidate(b, turn, m) && s <= IndexOf(m.from)
      ensures m in here + rest
    {
      if IndexOf(m.from) == s {
        IndexOfInBounds(m.from);
        assert m.from == from;
        assert m == Move(from, m.to);
        IndexOfInBounds(m.to);
        assert m in here;
      }
    }
  }

  lemma ConcatInScanOrder(xs: seq<Move>, ys: seq<Move>)
    requires InScanOrder(xs) && InScanOrder(ys)
    requires forall i, j :: 0 <= i < |xs| && 0 <= j < |ys| ==> IndexOf(xs[i].from) < IndexOf(ys[j].from)
    ensures InScanOrder(xs + ys)
  {
    var zs := xs + ys;
    forall i, j | 0 <= i < j < |zs|
      ensures Precedes(zs[i], zs[j])
    {
      if j < |xs| {
        assert zs[i] == xs[i] && zs[j] == xs[j];
      } else if i >= |xs| {
        assert zs[i] == ys[i - |xs|] && zs[j] == ys[j - |xs|];
      } else {
        assert zs[i] == xs[i] && zs[j] == ys[j - |xs|];
      }
    }
  }

  /**
    getPossibleMoves, run sequentially: exactly the candidate moves of `turn`,
    in row-major order, each once.
  */
  function GetPossibleMoves(b: Board, turn: int): (ms: seq<Move>)
    ensures forall i :: 0 <= i < |ms| ==> IsCandidate(b, turn, ms[i])
    ensures forall m :: IsCandidate(b, turn, m) ==> m in ms
    ensures InScanOrder(ms)
    ensures forall i, j :: 0 <= i < |ms| && 0 <= j < |ms| && i != j ==> ms[i] != ms[j]
  {
    var ms := ScanSources(b, turn, 0);
    forall m | IsCandidate(b, turn, m)
      ensures 0 <= IndexOf(m.from)
    {
      IndexOfInBounds(m.from);
    }
    assert forall i, j :: 0 <= i < |ms| && 0 <= j < |ms| && i < j ==> Precedes(ms[i], ms[j]);
    ms
  }

  /** The two scans agree: a side can move exactly when its move list is non-empty. */
  lemma HasValidMovesIffMoveListNonEmpty(b: Board, turn: int)
    ensures HasValidMoves(b, turn) <==> |GetPossibleMoves(b, turn)| > 0
  {
    var ms := GetPossibleMoves(b, turn);
    if |ms| > 0 {
      assert IsCandidate(b, turn, ms[0]);
    }
    if HasValidMoves(b, turn) {
      var m :| IsCandidate(b, turn, m);
      assert m in ms;
    }
  }

  // ---------------------------------------------------------------------
  // isGameOver

  /**
    isGameOver: a side has no pieces, or either side (whichever is to move)
    has no accepted move.
  */
  function IsGameOver(b: Board): (over: bool)
    ensures over <==> NoPieces(b, Player1) || NoPieces(b, Player2)
                      || !(exists m :: IsCandidate(b, Player1, m))
                      || !(exists m :: IsCandidate(b, Player2, m))
  {
    var player1Pieces := Count(b, Player1);
    var player2Pieces := Count(b, Player2);
    CountZeroIffNoPieces(b, Player1);
    CountZeroIffNoPieces(b, Player2);
    if player1Pieces == 0 || player2Pieces == 0 then true
    else if !HasValidMoves(b, Player1) || !HasValidMoves(b, Player2) then true
    else false
  }

  /** The piece-count test of isGameOver is subsumed: the game is over iff some side cannot move. */
  lemma GameOverIffSomeSideStuck(b: Board)
    ensures IsGameOver(b) <==> !HasValidMoves(b, Player1) || !HasValidMoves(b, Player2)
  {
    if NoPieces(b, Player1) {
      assert forall m :: !IsCandidate(b, Player1, m);
    }
    if NoPieces(b, Player2) {
      assert forall m :: !IsCandidate(b, Player2, m);
    }
  }

  /** The starting position is not over: both sides have a forward step. */
  lemma InitialPositionNotOver()
    ensures !IsGameOver(InitializeBoard())
  {
    var b := InitializeBoard();
    var m1 := Move(Square(5, 0), Square(4, 1));
    var m2 := Move(Square(2, 1), Square(3, 0));
    assert At(b, Square(5, 0)) == Player1 && At(b, Square(4, 1)) == Empty;
    assert At(b, Square(2, 1)) == Player2 && At(b, Square(3, 0)) == Empty;
    assert IsCandidate(b, Player1, m1);
    assert IsCandidate(b, Player2, m2);
    assert Count(b, Player1) != 0 && Count(b, Player2) != 0;
  }
}
